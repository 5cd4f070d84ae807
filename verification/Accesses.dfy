/** The operations of common/unionfind.h as a machine that makes one access to a parent or size entry per step, and
  what follows for threads that share the arrays but not the entries: any interleaving ends in the same arrays. */
module Accesses {
  import opened Equivalence
  import opened Wrappers

  // A parent entry that has never been queried.
  const UNINIT: nat := 0xffff_ffff

  datatype Mem = Mem(parent: seq<nat>, size: seq<nat>)

  // What a find is for: the first or the second one of a connect, or on its own.
  datatype Use = First(bid: nat) | Second(aroot: nat) | Alone

  // The next access, with the local variables that are live there.
  datatype Pc =
    | Ready                                       // between two connects
    | Enter(id: nat, use: Use)                    // root = parent[id]
    | Init(id: nat, use: Use)                     // parent[id] = id
    | Test(id: nat, root: nat, use: Use)          // while (parent[root] != root)
    | Hop(id: nat, root: nat, use: Use)           // root = parent[root]
    | Check(id: nat, root: nat, use: Use)         // while (parent[id] != root)
    | Save(id: nat, root: nat, use: Use)          // tmp = parent[id]
    | Point(id: nat, root: nat, tmp: nat, use: Use)   // parent[id] = root
    | Found(root: nat, use: Use)                  // return root
    | SizeA(aroot: nat, broot: nat)               // asize = size[aroot] + 1
    | SizeB(aroot: nat, broot: nat, asize: nat)   // bsize = size[broot] + 1
    | Link(loser: nat, winner: nat, add: nat)     // parent[loser] = winner
    | Grow(winner: nat, add: nat)                 // size[winner] + add
    | Store(winner: nat, total: nat)              // size[winner] = ...

  // A thread with connects left to do.
  datatype Local = Local(pc: Pc, ops: seq<Edge>)

  datatype State = State(mem: Mem, local: Local)

  // The entry the next step accesses; steps between accesses name none.
  function Entry(l: Local): (i: int) {
    match l.pc
    case Ready => -1
    case Enter(id, _) => id
    case Init(id, _) => id
    case Test(_, root, _) => root
    case Hop(_, root, _) => root
    case Check(id, _, _) => id
    case Save(id, _, _) => id
    case Point(id, _, _, _) => id
    case Found(_, _) => -1
    case SizeA(aroot, _) => aroot
    case SizeB(_, broot, _) => broot
    case Link(loser, _, _) => loser
    case Grow(winner, _) => winner
    case Store(winner, _) => winner
  }

  predicate InRange(m: Mem, l: Local) {
    |m.size| == |m.parent| && Entry(l) < |m.parent|
  }

  function Step(s: State): State {
    if InRange(s.mem, s.local) then State(After(s.mem, s.local.pc), s.local.(pc := Next(s.mem, s.local), ops := Rest(s.local))) else s
  }

  // The write of a step, if it makes one.
  function After(m: Mem, pc: Pc): Mem
    requires InRange(m, Local(pc, []))
  {
    match pc
    case Init(id, _) => m.(parent := m.parent[id := id])
    case Point(id, root, _, _) => m.(parent := m.parent[id := root])
    case Link(loser, winner, _) => m.(parent := m.parent[loser := winner])
    case Store(winner, total) => m.(size := m.size[winner := total])
    case _ => m
  }

  function Next(m: Mem, l: Local): Pc
    requires InRange(m, l)
  {
    match l.pc
    case Ready => if l.ops == [] then Ready else Enter(l.ops[0].0, First(l.ops[0].1))
    case Enter(id, use) => if m.parent[id] == UNINIT then Init(id, use) else Test(id, m.parent[id], use)
    case Init(id, use) => Found(id, use)
    case Test(id, root, use) => if m.parent[root] == root then Check(id, root, use) else Hop(id, root, use)
    case Hop(id, root, use) => Test(id, m.parent[root], use)
    case Check(id, root, use) => if m.parent[id] == root then Found(root, use) else Save(id, root, use)
    case Save(id, root, use) => Point(id, root, m.parent[id], use)
    case Point(id, root, tmp, use) => Check(tmp, root, use)
    case Found(root, First(bid)) => Enter(bid, Second(root))
    case Found(root, Second(aroot)) => if aroot == root then Ready else SizeA(aroot, root)
    case Found(root, Alone) => l.pc
    case SizeA(aroot, broot) => SizeB(aroot, broot, m.size[aroot] + 1)
    case SizeB(aroot, broot, asize) =>
      if asize > m.size[broot] + 1 then Link(broot, aroot, m.size[broot] + 1) else Link(aroot, broot, asize)
    case Link(_, winner, add) => Grow(winner, add)
    case Grow(winner, add) => Store(winner, m.size[winner] + add)
    case Store(_, _) => Ready
  }

  function Rest(l: Local): seq<Edge> {
    if l.pc.Ready? && l.ops != [] then l.ops[1..] else l.ops
  }

  function Iterate(s: State, n: nat): State {
    Iterated(Step, s, n)
  }

  lemma IterateAdd(s: State, m: nat, n: nat)
    ensures Iterate(s, m + n) == Iterate(Iterate(s, m), n)
  {
    IteratedAdd(Step, s, m, n);
  }

  predicate Done(l: Local) {
    l.pc.Ready? && l.ops == []
  }

  lemma {:induction false} DoneStays(s: State, n: nat)
    requires Done(s.local)
    ensures Iterate(s, n) == s
  {
    if n > 0 {
      DoneStays(s, n - 1);
    }
  }

  function Start(m: Mem, ops: seq<Edge>): State {
    State(m, Local(Ready, ops))
  }

  // A thread on its own that makes these connects turns the arrays m into m'.
  ghost predicate Runs(m: Mem, ops: seq<Edge>, m': Mem) {
    exists n: nat :: RunsIn(m, ops, m', n)
  }

  ghost predicate RunsIn(m: Mem, ops: seq<Edge>, m': Mem, n: nat) {
    Iterate(Start(m, ops), n) == Start(m', [])
  }

  // The same thread with more to do afterwards.
  function WithMore(l: Local, more: seq<Edge>): Local {
    l.(ops := l.ops + more)
  }

  lemma StepWithMore(s: State, more: seq<Edge>)
    requires !Done(s.local)
    ensures Step(s.(local := WithMore(s.local, more))) == Step(s).(local := WithMore(Step(s).local, more))
  {
    var l := s.local;
    if l.pc.Ready? {
      assert (l.ops + more)[0] == l.ops[0] && (l.ops + more)[1..] == l.ops[1..] + more;
    }
  }

  lemma {:induction false} IterateWithMore(s: State, n: nat, m': Mem, more: seq<Edge>)
    requires Iterate(s, n) == Start(m', [])
    ensures exists k: nat :: Iterate(s.(local := WithMore(s.local, more)), k) == Start(m', more)
    decreases n
  {
    var t := s.(local := WithMore(s.local, more));
    if Done(s.local) {
      DoneStays(s, n);
      assert [] + more == more;
      assert Iterate(t, 0) == Start(m', more);
    } else {
      if n == 0 {
        assert false;
      }
      StepWithMore(s, more);
      IterateAdd(s, 1, n - 1);
      assert Iterate(s, 1) == Step(Iterate(s, 0));
      IterateWithMore(Step(s), n - 1, m', more);
      var k: nat :| Iterate(Step(s).(local := WithMore(Step(s).local, more)), k) == Start(m', more);
      IterateAdd(t, 1, k);
      assert Iterate(t, 1) == Step(Iterate(t, 0));
    }
  }

  lemma RunsJoin(m: Mem, a: seq<Edge>, m': Mem, b: seq<Edge>, m'': Mem)
    requires Runs(m, a, m') && Runs(m', b, m'')
    ensures Runs(m, a + b, m'')
  {
    var n: nat :| RunsIn(m, a, m', n);
    IterateWithMore(Start(m, a), n, m', b);
    var k: nat :| Iterate(Start(m, a + b), k) == Start(m', b);
    var j: nat :| RunsIn(m', b, m'', j);
    IterateAdd(Start(m, a + b), k, j);
    assert RunsIn(m, a + b, m'', k + j);
  }

  // ---- What a thread is given to do ----

  datatype Script = Nothing | Union(e: Edge) | Then(first: Script, second: Script)

  function Flat(s: Script): seq<Edge> {
    match s
    case Nothing => []
    case Union(e) => [e]
    case Then(a, b) => Flat(a) + Flat(b)
  }

  // The connects of s, one after the other, turn m into m'.
  ghost predicate Performs(m: Mem, s: Script, m': Mem)
    decreases s
  {
    match s
    case Nothing => m == m'
    case Union(e) => Runs(m, [e], m')
    case Then(a, b) => exists mid :: Performs(m, a, mid) && Performs(mid, b, m')
  }

  lemma PerformsThen(m: Mem, a: Script, mid: Mem, b: Script, m': Mem)
    requires Performs(m, a, mid) && Performs(mid, b, m')
    ensures Performs(m, Then(a, b), m')
  {
  }

  lemma {:induction false} PerformsRuns(m: Mem, s: Script, m': Mem)
    requires Performs(m, s, m')
    ensures Runs(m, Flat(s), m')
    decreases s
  {
    match s
    case Nothing => assert RunsIn(m, [], m, 0);
    case Union(e) =>
    case Then(a, b) =>
      var mid :| Performs(m, a, mid) && Performs(mid, b, m');
      PerformsRuns(m, a, mid);
      PerformsRuns(mid, b, m');
      RunsJoin(m, Flat(a), mid, Flat(b), m');
  }

  // ---- Footprints ----

  // Links out of B lead into B, to initialised entries.
  ghost predicate Closed(m: Mem, B: set<nat>) {
    && |m.size| == |m.parent| <= UNINIT
    && forall i :: i in B ==> EntryIn(m, B, i)
  }

  ghost predicate EntryIn(m: Mem, B: set<nat>, i: nat) {
    i < |m.parent| && (m.parent[i] != UNINIT ==> Root(m, B, m.parent[i]))
  }

  // A member of B that has been initialised.
  ghost predicate Root(m: Mem, B: set<nat>, i: nat) {
    i in B && i < |m.parent| && m.parent[i] != UNINIT
  }

  ghost predicate UseIn(m: Mem, B: set<nat>, use: Use) {
    match use
    case First(bid) => bid in B
    case Second(aroot) => Root(m, B, aroot)
    case Alone => true
  }

  // All ids the thread holds are in B.
  ghost predicate PcIn(m: Mem, B: set<nat>, pc: Pc) {
    match pc
    case Ready => true
    case Enter(id, use) => id in B && UseIn(m, B, use)
    case Init(id, use) => id in B && UseIn(m, B, use)
    case Test(id, root, use) => Root(m, B, id) && Root(m, B, root) && UseIn(m, B, use)
    case Hop(id, root, use) => Root(m, B, id) && Root(m, B, root) && UseIn(m, B, use)
    case Check(id, root, use) => Root(m, B, id) && Root(m, B, root) && UseIn(m, B, use)
    case Save(id, root, use) => Root(m, B, id) && Root(m, B, root) && UseIn(m, B, use)
    case Point(id, root, tmp, use) => id in B && Root(m, B, root) && Root(m, B, tmp) && UseIn(m, B, use)
    case Found(root, use) => Root(m, B, root) && UseIn(m, B, use)
    case SizeA(aroot, broot) => Root(m, B, aroot) && Root(m, B, broot)
    case SizeB(aroot, broot, _) => Root(m, B, aroot) && Root(m, B, broot)
    case Link(loser, winner, _) => loser in B && Root(m, B, winner)
    case Grow(winner, _) => winner in B
    case Store(winner, _) => winner in B
  }

  ghost predicate OpsIn(ops: seq<Edge>, B: set<nat>) {
    forall e :: e in ops ==> e.0 in B && e.1 in B
  }

  ghost predicate Confined(s: State, B: set<nat>) {
    Closed(s.mem, B) && PcIn(s.mem, B, s.local.pc) && OpsIn(s.local.ops, B)
  }

  ghost predicate AgreeOn(m: Mem, m': Mem, B: set<nat>) {
    && |m'.parent| == |m.parent| && |m'.size| == |m.size|
    && forall i :: i in B && i < |m.parent| && i < |m.size| ==> m'.parent[i] == m.parent[i] && m'.size[i] == m.size[i]
  }

  ghost predicate AgreeOutside(m: Mem, m': Mem, B: set<nat>) {
    && |m'.parent| == |m.parent| && |m'.size| == |m.size|
    && forall i :: i !in B && 0 <= i < |m.parent| && i < |m.size| ==> m'.parent[i] == m.parent[i] && m'.size[i] == m.size[i]
  }

  // A write of a confined thread keeps B closed and its initialised entries initialised.
  lemma WriteConfined(m: Mem, pc: Pc, B: set<nat>)
    requires Closed(m, B) && PcIn(m, B, pc)
    ensures InRange(m, Local(pc, [])) && Closed(After(m, pc), B) && AgreeOutside(m, After(m, pc), B)
    ensures forall i :: Root(m, B, i) ==> Root(After(m, pc), B, i)
  {
    AccessInRange(m, pc, B);
    match pc
    case Init(id, _) => WriteParent(m, B, id, id, After(m, pc));
    case Point(id, root, _, _) => WriteParent(m, B, id, root, After(m, pc));
    case Link(loser, winner, _) => WriteParent(m, B, loser, winner, After(m, pc));
    case Store(winner, total) => WriteSize(m, B, winner, total);
    case _ =>
  }

  lemma AccessInRange(m: Mem, pc: Pc, B: set<nat>)
    requires Closed(m, B) && PcIn(m, B, pc)
    ensures InRange(m, Local(pc, [])) && (Entry(Local(pc, [])) >= 0 ==> Entry(Local(pc, [])) in B)
  {
    var e := Entry(Local(pc, []));
    assert e in B ==> EntryIn(m, B, e);
  }

  lemma WriteParent(m: Mem, B: set<nat>, id: nat, v: nat, m': Mem)
    requires Closed(m, B) && id in B && (v == id || Root(m, B, v)) && id < |m.parent|
    requires m'.parent == m.parent[id := v] && m'.size == m.size
    ensures Closed(m', B) && AgreeOutside(m, m', B)
    ensures forall i :: Root(m, B, i) ==> Root(m', B, i)
  {
    RootsStay(m, m', B, id, v);
    forall i | i in B
      ensures EntryIn(m', B, i)
    {
      EntryStays(m, m', B, id, v, i);
    }
  }

  lemma EntryStays(m: Mem, m': Mem, B: set<nat>, id: nat, v: nat, i: nat)
    requires Closed(m, B) && id in B && i in B && (v == id || Root(m, B, v)) && id < |m.parent| && m'.parent == m.parent[id := v]
    requires Root(m', B, id) && forall j :: Root(m, B, j) ==> Root(m', B, j)
    ensures EntryIn(m', B, i)
  {
    assert EntryIn(m, B, i);
    if i == id {
      assert Root(m', B, v);
    } else if m.parent[i] != UNINIT {
      assert Root(m', B, m.parent[i]);
    }
  }

  lemma RootsStay(m: Mem, m': Mem, B: set<nat>, id: nat, v: nat)
    requires id < |m.parent| <= UNINIT && m'.parent == m.parent[id := v] && v < |m.parent|
    ensures forall i :: Root(m, B, i) ==> Root(m', B, i)
    ensures id in B ==> Root(m', B, id)
  {
  }

  lemma WriteSize(m: Mem, B: set<nat>, id: nat, v: nat)
    requires Closed(m, B) && id in B
    ensures id < |m.size| && Closed(m.(size := m.size[id := v]), B)
    ensures AgreeOutside(m, m.(size := m.size[id := v]), B)
    ensures forall i :: Root(m, B, i) ==> Root(m.(size := m.size[id := v]), B, i)
  {
    assert EntryIn(m, B, id);
    var m' := m.(size := m.size[id := v]);
    forall i | i in B
      ensures EntryIn(m', B, i)
    {
      assert EntryIn(m, B, i);
    }
  }

  // What the thread holds next is in B too.
  lemma NextConfined(m: Mem, l: Local, m': Mem, B: set<nat>)
    requires Closed(m, B) && PcIn(m, B, l.pc) && OpsIn(l.ops, B) && InRange(m, l) && m' == After(m, l.pc)
    requires forall i :: Root(m, B, i) ==> Root(m', B, i)
    ensures PcIn(m', B, Next(m, l)) && OpsIn(Rest(l), B)
  {
    match l.pc
    case Ready =>
    case Enter(id, use) => assert EntryIn(m, B, id);
    case Init(id, use) =>
    case Test(id, root, use) =>
    case Hop(id, root, use) => assert EntryIn(m, B, root);
    case Check(id, root, use) =>
    case Save(id, root, use) => assert EntryIn(m, B, id);
    case _ =>
  }

  // A step of a confined thread accesses an entry of B and stays confined; nothing outside B changes.
  lemma StepConfined(s: State, B: set<nat>)
    requires Confined(s, B)
    ensures Confined(Step(s), B) && AgreeOutside(s.mem, Step(s).mem, B)
    ensures InRange(s.mem, s.local) && (Entry(s.local) >= 0 ==> Entry(s.local) in B)
  {
    AccessInRange(s.mem, s.local.pc, B);
    WriteConfined(s.mem, s.local.pc, B);
    NextConfined(s.mem, s.local, After(s.mem, s.local.pc), B);
  }

  // What it does depends on the entries of B alone.
  lemma StepLocal(m: Mem, m': Mem, l: Local, B: set<nat>)
    requires Confined(State(m, l), B) && AgreeOn(m, m', B)
    ensures Confined(State(m', l), B)
    ensures Step(State(m', l)).local == Step(State(m, l)).local && AgreeOn(Step(State(m, l)).mem, Step(State(m', l)).mem, B)
  {
    AccessInRange(m, l.pc, B);
    ClosedAgrees(m, m', B);
    PcAgrees(m, m', B, l.pc);
    NextAgrees(m, m', l, B);
    WriteAgrees(m, m', l.pc, B);
  }

  lemma ClosedAgrees(m: Mem, m': Mem, B: set<nat>)
    requires Closed(m, B) && AgreeOn(m, m', B)
    ensures Closed(m', B)
  {
    forall i | i in B
      ensures EntryIn(m', B, i)
    {
      assert EntryIn(m, B, i);
    }
  }

  lemma PcAgrees(m: Mem, m': Mem, B: set<nat>, pc: Pc)
    requires PcIn(m, B, pc) && AgreeOn(m, m', B) && |m.size| == |m.parent|
    ensures PcIn(m', B, pc)
  {
    assert forall i :: Root(m, B, i) ==> Root(m', B, i);
  }

  lemma NextAgrees(m: Mem, m': Mem, l: Local, B: set<nat>)
    requires InRange(m, l) && InRange(m', l) && AgreeOn(m, m', B) && (Entry(l) >= 0 ==> Entry(l) in B)
    ensures Next(m', l) == Next(m, l)
  {
    var e := Entry(l);
    assert e >= 0 ==> m'.parent[e] == m.parent[e] && m'.size[e] == m.size[e];
  }

  lemma WriteAgrees(m: Mem, m': Mem, pc: Pc, B: set<nat>)
    requires InRange(m, Local(pc, [])) && InRange(m', Local(pc, [])) && AgreeOn(m, m', B)
    ensures AgreeOn(After(m, pc), After(m', pc), B)
  {
  }

  // ---- A confined thread on its own ----

  lemma {:induction false} IterateConfined(s: State, n: nat, B: set<nat>)
    requires Confined(s, B)
    ensures Confined(Iterate(s, n), B) && AgreeOutside(s.mem, Iterate(s, n).mem, B)
  {
    if n > 0 {
      IterateConfined(s, n - 1, B);
      StepConfined(Iterate(s, n - 1), B);
    }
  }

  lemma {:induction false} IterateLocal(m: Mem, m': Mem, l: Local, n: nat, B: set<nat>)
    requires Confined(State(m, l), B) && AgreeOn(m, m', B)
    ensures Iterate(State(m', l), n).local == Iterate(State(m, l), n).local
    ensures AgreeOn(Iterate(State(m, l), n).mem, Iterate(State(m', l), n).mem, B)
  {
    if n > 0 {
      IterateLocal(m, m', l, n - 1, B);
      IterateConfined(State(m, l), n - 1, B);
      var s, s' := Iterate(State(m, l), n - 1), Iterate(State(m', l), n - 1);
      StepLocal(s.mem, s'.mem, s.local, B);
    }
  }

  // All writes of a thread on its own are in B.
  lemma RunsWithin(m: Mem, ops: seq<Edge>, m': Mem, B: set<nat>)
    requires Runs(m, ops, m') && Closed(m, B) && OpsIn(ops, B)
    ensures Closed(m', B) && AgreeOutside(m, m', B)
  {
    var n: nat :| RunsIn(m, ops, m', n);
    IterateConfined(Start(m, ops), n, B);
  }

  // The end does not depend on how long one waits.
  lemma SameEnd(s: State, n: nat, n': nat)
    requires Done(Iterate(s, n).local) && Done(Iterate(s, n').local)
    ensures Iterate(s, n) == Iterate(s, n')
  {
    if n <= n' {
      WaitLonger(s, n, n' - n);
    } else {
      WaitLonger(s, n', n - n');
    }
  }

  lemma WaitLonger(s: State, n: nat, more: nat)
    requires Done(Iterate(s, n).local)
    ensures Iterate(s, n + more) == Iterate(s, n)
  {
    IterateAdd(s, n, more);
    DoneStays(Iterate(s, n), more);
  }

  // ---- Threads that share the arrays ----

  datatype Shared = Shared(mem: Mem, locals: seq<Local>)

  // One step of one thread.
  function Turn(s: Shared, k: nat): Shared {
    if k < |s.locals| then
      var t := Step(State(s.mem, s.locals[k]));
      Shared(t.mem, s.locals[k := t.local])
    else s
  }

  // A schedule names the thread that makes each step.
  function Interleave(s: Shared, schedule: seq<nat>): Shared {
    if schedule == [] then s
    else Turn(Interleave(s, schedule[..|schedule| - 1]), schedule[|schedule| - 1])
  }

  function Turns(schedule: seq<nat>, k: nat): nat {
    if schedule == [] then 0
    else Turns(schedule[..|schedule| - 1], k) + (if schedule[|schedule| - 1] == k then 1 else 0)
  }

  ghost predicate Disjoint(bands: seq<set<nat>>) {
    forall j, k :: 0 <= j < k < |bands| ==> bands[j] !! bands[k]
  }

  // Every thread starts confined to a band of its own.
  ghost predicate Apart(s: Shared, bands: seq<set<nat>>) {
    |bands| == |s.locals| && Disjoint(bands) && forall k :: 0 <= k < |bands| ==> Confined(State(s.mem, s.locals[k]), bands[k])
  }

  // After any schedule, thread k and its band are where k alone would have brought them.
  ghost predicate AsAlone(s: Shared, schedule: seq<nat>, bands: seq<set<nat>>, k: nat)
    requires k < |s.locals| == |bands|
  {
    var t, alone := Interleave(s, schedule), Iterate(State(s.mem, s.locals[k]), Turns(schedule, k));
    |t.locals| == |s.locals| && t.locals[k] == alone.local && AgreeOn(alone.mem, t.mem, bands[k])
  }

  ghost predicate InSomeBand(bands: seq<set<nat>>, i: nat) {
    exists k :: 0 <= k < |bands| && i in bands[k]
  }

  lemma {:induction false} InterleavedAsAlone(s: Shared, schedule: seq<nat>, bands: seq<set<nat>>, k: nat)
    requires Apart(s, bands) && k < |bands|
    ensures AsAlone(s, schedule, bands, k)
  {
    if schedule != [] {
      var before, j := schedule[..|schedule| - 1], schedule[|schedule| - 1];
      InterleavedAsAlone(s, before, bands, k);
      assert before + [j] == schedule;
      if j < |bands| {
        InterleavedAsAlone(s, before, bands, j);
        TurnAsAlone(s, before, bands, j, k);
      } else {
        NoTurn(s, before, bands, j, k);
      }
    }
  }

  lemma NoTurn(s: Shared, before: seq<nat>, bands: seq<set<nat>>, j: nat, k: nat)
    requires |s.locals| == |bands| && k < |bands| <= j && AsAlone(s, before, bands, k)
    ensures AsAlone(s, before + [j], bands, k)
  {
    assert (before + [j])[..|before|] == before;
  }

  lemma TurnAsAlone(s: Shared, before: seq<nat>, bands: seq<set<nat>>, j: nat, k: nat)
    requires Apart(s, bands) && k < |bands| && j < |bands|
    requires AsAlone(s, before, bands, k) && AsAlone(s, before, bands, j)
    ensures AsAlone(s, before + [j], bands, k)
  {
    assert (before + [j])[..|before|] == before;
    var t := Interleave(s, before);
    StillConfined(s, before, bands, j);
    if j == k {
      OwnTurn(Iterate(State(s.mem, s.locals[j]), Turns(before, j)), t.mem, bands[j]);
    } else {
      OthersTurn(t.mem, t.locals[j], bands[j], bands[k]);
    }
  }

  // On its own and among the others it stays confined.
  lemma StillConfined(s: Shared, before: seq<nat>, bands: seq<set<nat>>, j: nat)
    requires Apart(s, bands) && j < |bands| && AsAlone(s, before, bands, j)
    ensures Confined(Iterate(State(s.mem, s.locals[j]), Turns(before, j)), bands[j])
    ensures var t := Interleave(s, before); Confined(State(t.mem, t.locals[j]), bands[j])
  {
    var t := Interleave(s, before);
    var alone := Iterate(State(s.mem, s.locals[j]), Turns(before, j));
    IterateConfined(State(s.mem, s.locals[j]), Turns(before, j), bands[j]);
    ClosedAgrees(alone.mem, t.mem, bands[j]);
    PcAgrees(alone.mem, t.mem, bands[j], alone.local.pc);
  }

  lemma OwnTurn(alone: State, m: Mem, B: set<nat>)
    requires Confined(alone, B) && AgreeOn(alone.mem, m, B)
    ensures Step(State(m, alone.local)).local == Step(alone).local && AgreeOn(Step(alone).mem, Step(State(m, alone.local)).mem, B)
  {
    StepLocal(alone.mem, m, alone.local, B);
  }

  lemma OthersTurn(m: Mem, l: Local, B: set<nat>, C: set<nat>)
    requires Confined(State(m, l), B) && B !! C
    ensures AgreeOn(m, Step(State(m, l)).mem, C)
  {
    StepConfined(State(m, l), B);
  }

  lemma {:induction false} InterleaveOutside(s: Shared, schedule: seq<nat>, bands: seq<set<nat>>, i: nat)
    requires Apart(s, bands) && !InSomeBand(bands, i) && i < |s.mem.parent| && |s.mem.size| == |s.mem.parent|
    ensures SameEntry(s.mem, Interleave(s, schedule).mem, i)
  {
    if schedule != [] {
      var before, j := schedule[..|schedule| - 1], schedule[|schedule| - 1];
      InterleaveOutside(s, before, bands, i);
      if j < |bands| {
        InterleavedAsAlone(s, before, bands, j);
        TurnOutside(s, before, bands, j, i);
      } else {
        LengthsKept(s, before);
      }
    }
  }

  ghost predicate SameEntry(m: Mem, m': Mem, i: nat) {
    && |m'.parent| == |m.parent| && |m'.size| == |m.size|
    && (i < |m.parent| && i < |m.size| ==> m'.parent[i] == m.parent[i] && m'.size[i] == m.size[i])
  }

  lemma TurnOutside(s: Shared, before: seq<nat>, bands: seq<set<nat>>, j: nat, i: nat)
    requires Apart(s, bands) && j < |bands| && !InSomeBand(bands, i) && AsAlone(s, before, bands, j)
    requires i < |s.mem.parent| && |s.mem.size| == |s.mem.parent| && SameEntry(s.mem, Interleave(s, before).mem, i)
    ensures SameEntry(s.mem, Turn(Interleave(s, before), j).mem, i)
  {
    var t := Interleave(s, before);
    StillConfined(s, before, bands, j);
    StepConfined(State(t.mem, t.locals[j]), bands[j]);
    assert i !in bands[j];
  }

  // ---- Threads one after another ----

  // mems lists the arrays after each thread when the threads make their connects one after another.
  ghost predicate InTurn(mems: seq<Mem>, ops: seq<seq<Edge>>) {
    |mems| == |ops| + 1 && forall k :: 0 <= k < |ops| ==> RunsAt(mems, ops, k)
  }

  ghost predicate RunsAt(mems: seq<Mem>, ops: seq<seq<Edge>>, k: nat)
    requires k < |ops| && |mems| == |ops| + 1
  {
    Runs(mems[k], ops[k], mems[k + 1])
  }

  function Begin(m: Mem, ops: seq<seq<Edge>>): Shared {
    Shared(m, seq(|ops|, k requires 0 <= k < |ops| => Local(Ready, ops[k])))
  }

  ghost predicate OpsApart(m: Mem, ops: seq<seq<Edge>>, bands: seq<set<nat>>) {
    |bands| == |ops| && Disjoint(bands) && forall k :: 0 <= k < |ops| ==> OpsConfined(m, ops, bands, k)
  }

  ghost predicate OpsConfined(m: Mem, ops: seq<seq<Edge>>, bands: seq<set<nat>>, k: nat)
    requires k < |ops| == |bands|
  {
    Closed(m, bands[k]) && OpsIn(ops[k], bands[k])
  }

  // Up to thread k nothing has touched the bands of thread k and later ones, and nobody an entry of no band.
  lemma {:induction false} EarlierTurns(mems: seq<Mem>, ops: seq<seq<Edge>>, bands: seq<set<nat>>, k: nat)
    requires InTurn(mems, ops) && OpsApart(mems[0], ops, bands) && k <= |ops|
    ensures forall j :: k <= j < |ops| ==> AgreeOn(mems[0], mems[k], bands[j])
    ensures forall i :: !InSomeBand(bands, i) ==> SameEntry(mems[0], mems[k], i)
  {
    if k > 0 {
      EarlierTurns(mems, ops, bands, k - 1);
      assert RunsAt(mems, ops, k - 1) && OpsConfined(mems[0], ops, bands, k - 1);
      ClosedAgrees(mems[0], mems[k - 1], bands[k - 1]);
      RunsWithin(mems[k - 1], ops[k - 1], mems[k - 1 + 1], bands[k - 1]);
      forall j | k <= j < |ops|
        ensures AgreeOn(mems[0], mems[k], bands[j])
      {
        assert bands[k - 1] !! bands[j];
      }
      forall i | !InSomeBand(bands, i)
        ensures SameEntry(mems[0], mems[k], i)
      {
        assert i !in bands[k - 1];
      }
    }
  }

  // From thread k on nobody touches the band of an earlier one.
  lemma {:induction false} LaterTurns(mems: seq<Mem>, ops: seq<seq<Edge>>, bands: seq<set<nat>>, j: nat, k: nat)
    requires InTurn(mems, ops) && OpsApart(mems[0], ops, bands) && j < k <= |ops|
    ensures AgreeOn(mems[j + 1], mems[k], bands[j])
  {
    if j + 1 < k {
      LaterTurns(mems, ops, bands, j, k - 1);
      EarlierTurns(mems, ops, bands, k - 1);
      assert RunsAt(mems, ops, k - 1) && OpsConfined(mems[0], ops, bands, k - 1);
      ClosedAgrees(mems[0], mems[k - 1], bands[k - 1]);
      RunsWithin(mems[k - 1], ops[k - 1], mems[k - 1 + 1], bands[k - 1]);
      assert bands[j] !! bands[k - 1];
    }
  }

  // In its band thread k alone, from the start, ends where it ends in turn.
  lemma AloneAsInTurn(mems: seq<Mem>, ops: seq<seq<Edge>>, bands: seq<set<nat>>, k: nat, n: nat)
    requires InTurn(mems, ops) && OpsApart(mems[0], ops, bands) && k < |ops|
    requires Done(Iterate(Start(mems[0], ops[k]), n).local)
    ensures AgreeOn(Iterate(Start(mems[0], ops[k]), n).mem, mems[k + 1], bands[k])
  {
    EarlierTurns(mems, ops, bands, k);
    assert RunsAt(mems, ops, k) && OpsConfined(mems[0], ops, bands, k);
    IterateLocal(mems[0], mems[k], Local(Ready, ops[k]), n, bands[k]);
    var n': nat :| RunsIn(mems[k], ops[k], mems[k + 1], n');
    SameEnd(Start(mems[k], ops[k]), n, n');
  }

  /** Threads with disjoint bands: whatever the schedule, when all of them are done the arrays are those the threads
    leave when they make their connects one after another. */
  lemma AnyInterleaving(mems: seq<Mem>, ops: seq<seq<Edge>>, bands: seq<set<nat>>, schedule: seq<nat>)
    requires InTurn(mems, ops) && OpsApart(mems[0], ops, bands)
    requires |mems[0].size| == |mems[0].parent|
    requires AllDone(Interleave(Begin(mems[0], ops), schedule))
    ensures Interleave(Begin(mems[0], ops), schedule).mem == mems[|ops|]
  {
    var s := Begin(mems[0], ops);
    var t, last := Interleave(s, schedule), mems[|ops|];
    BeginApart(mems[0], ops, bands);
    LengthsKept(s, schedule);
    EarlierTurns(mems, ops, bands, |ops|);
    LastLengths(mems, ops, bands);
    forall i: nat | i < |t.mem.parent|
      ensures SameEntry(t.mem, last, i)
    {
      if InSomeBand(bands, i) {
        var k: nat :| k < |bands| && i in bands[k];
        InterleavedAsAlone(s, schedule, bands, k);
        AloneAsInTurn(mems, ops, bands, k, Turns(schedule, k));
        LaterTurns(mems, ops, bands, k, |ops|);
      } else {
        InterleaveOutside(s, schedule, bands, i);
      }
    }
    SameEntries(t.mem, last);
  }

  lemma SameEntries(m: Mem, m': Mem)
    requires |m.parent| == |m.size| == |m'.parent| == |m'.size| && forall i: nat :: i < |m.parent| ==> SameEntry(m, m', i)
    ensures m == m'
  {
    forall i | 0 <= i < |m.parent|
      ensures m.parent[i] == m'.parent[i] && m.size[i] == m'.size[i]
    {
      assert SameEntry(m, m', i);
    }
    assert m.parent == m'.parent && m.size == m'.size;
  }

  lemma BeginApart(m: Mem, ops: seq<seq<Edge>>, bands: seq<set<nat>>)
    requires OpsApart(m, ops, bands)
    ensures Apart(Begin(m, ops), bands)
  {
    forall k | 0 <= k < |bands|
      ensures Confined(State(m, Begin(m, ops).locals[k]), bands[k])
    {
      assert OpsConfined(m, ops, bands, k);
    }
  }

  lemma {:induction false} LengthsKept(s: Shared, schedule: seq<nat>)
    ensures var t := Interleave(s, schedule);
      |t.mem.parent| == |s.mem.parent| && |t.mem.size| == |s.mem.size| && |t.locals| == |s.locals|
  {
    if schedule != [] {
      LengthsKept(s, schedule[..|schedule| - 1]);
    }
  }

  lemma LastLengths(mems: seq<Mem>, ops: seq<seq<Edge>>, bands: seq<set<nat>>)
    requires InTurn(mems, ops) && OpsApart(mems[0], ops, bands)
    ensures |mems[|ops|].parent| == |mems[0].parent| && |mems[|ops|].size| == |mems[0].size|
  {
    if ops != [] {
      var k := |ops| - 1;
      EarlierTurns(mems, ops, bands, k);
      assert RunsAt(mems, ops, k) && OpsConfined(mems[0], ops, bands, k);
      ClosedAgrees(mems[0], mems[k], bands[k]);
      RunsWithin(mems[k], ops[k], mems[k + 1], bands[k]);
    }
  }

  // A schedule that gives every thread the steps it needs on its own finishes them all.
  lemma EnoughTurns(mems: seq<Mem>, ops: seq<seq<Edge>>, bands: seq<set<nat>>, schedule: seq<nat>, k: nat, n: nat)
    requires InTurn(mems, ops) && OpsApart(mems[0], ops, bands) && k < |ops|
    requires RunsIn(mems[k], ops[k], mems[k + 1], n) && n <= Turns(schedule, k)
    ensures |Interleave(Begin(mems[0], ops), schedule).locals| == |ops|
    ensures Done(Interleave(Begin(mems[0], ops), schedule).locals[k])
  {
    var turns := Turns(schedule, k);
    BeginApart(mems[0], ops, bands);
    InterleavedAsAlone(Begin(mems[0], ops), schedule, bands, k);
    EarlierTurns(mems, ops, bands, k);
    assert OpsConfined(mems[0], ops, bands, k);
    IterateLocal(mems[0], mems[k], Local(Ready, ops[k]), turns, bands[k]);
    WaitLonger(Start(mems[k], ops[k]), n, turns - n);
  }

  ghost predicate AllDone(s: Shared) {
    forall k :: 0 <= k < |s.locals| ==> Done(s.locals[k])
  }

  // Schedules in which each of the first n threads has at least so many turns.
  ghost predicate Fair(schedule: seq<nat>, n: nat, turns: nat) {
    forall k: nat :: k < n ==> turns <= Turns(schedule, k)
  }

  ghost predicate FairIsEnough(m: Mem, ops: seq<seq<Edge>>, turns: nat) {
    forall schedule: seq<nat> :: Fair(schedule, |ops|, turns) ==> AllDone(Interleave(Begin(m, ops), schedule))
  }

  // All schedules long enough for every thread finish, and however they do the arrays are m' then.
  ghost predicate AlwaysEndsIn(m: Mem, ops: seq<seq<Edge>>, m': Mem) {
    && (exists turns: nat :: FairIsEnough(m, ops, turns))
    && forall schedule: seq<nat> :: AllDone(Interleave(Begin(m, ops), schedule)) ==> Interleave(Begin(m, ops), schedule).mem == m'
  }

  lemma {:induction false} TurnsNeeded(mems: seq<Mem>, ops: seq<seq<Edge>>, k: nat) returns (turns: nat)
    requires InTurn(mems, ops) && k <= |ops|
    ensures forall j :: 0 <= j < k ==> RunsWithinTurns(mems, ops, j, turns)
  {
    turns := 0;
    if k > 0 {
      var before := TurnsNeeded(mems, ops, k - 1);
      assert RunsAt(mems, ops, k - 1);
      var n: nat :| RunsIn(mems[k - 1], ops[k - 1], mems[k - 1 + 1], n);
      turns := before + n;
      assert RunsWithinTurns(mems, ops, k - 1, turns);
      forall j | 0 <= j < k - 1
        ensures RunsWithinTurns(mems, ops, j, turns)
      {
        assert RunsWithinTurns(mems, ops, j, before);
      }
    }
  }

  ghost predicate RunsWithinTurns(mems: seq<Mem>, ops: seq<seq<Edge>>, j: nat, turns: nat)
    requires j < |ops| && |mems| == |ops| + 1
  {
    EndsWithin(mems[j], ops[j], mems[j + 1], turns)
  }

  ghost predicate EndsWithin(m: Mem, ops: seq<Edge>, m': Mem, turns: nat) {
    exists n: nat :: n <= turns && RunsIn(m, ops, m', n)
  }

  // Threads with disjoint bands end where they end one after another, whatever the schedule.
  lemma AnyScheduleEnds(mems: seq<Mem>, ops: seq<seq<Edge>>, bands: seq<set<nat>>)
    requires InTurn(mems, ops) && OpsApart(mems[0], ops, bands) && |mems[0].size| == |mems[0].parent|
    ensures AlwaysEndsIn(mems[0], ops, mems[|ops|])
  {
    var turns := TurnsNeeded(mems, ops, |ops|);
    forall schedule: seq<nat> | Fair(schedule, |ops|, turns)
      ensures AllDone(Interleave(Begin(mems[0], ops), schedule))
    {
      LengthsKept(Begin(mems[0], ops), schedule);
      forall k | 0 <= k < |ops|
        ensures Done(Interleave(Begin(mems[0], ops), schedule).locals[k])
      {
        assert RunsWithinTurns(mems, ops, k, turns);
        var n: nat :| n <= turns && RunsIn(mems[k], ops[k], mems[k + 1], n);
        EnoughTurns(mems, ops, bands, schedule, k, n);
      }
    }
    assert FairIsEnough(mems[0], ops, turns);
    forall schedule: seq<nat> | AllDone(Interleave(Begin(mems[0], ops), schedule))
      ensures Interleave(Begin(mems[0], ops), schedule).mem == mems[|ops|]
    {
      AnyInterleaving(mems, ops, bands, schedule);
    }
  }

  // At no moment of any schedule are two threads about to access the same entry.
  lemma NoSharedEntry(m: Mem, ops: seq<seq<Edge>>, bands: seq<set<nat>>, schedule: seq<nat>, j: nat, k: nat)
    requires OpsApart(m, ops, bands) && j < k < |ops|
    ensures var t := Interleave(Begin(m, ops), schedule);
      |t.locals| == |ops| && (Entry(t.locals[j]) >= 0 ==> Entry(t.locals[j]) != Entry(t.locals[k]))
  {
    BeginApart(m, ops, bands);
    EntryInBand(m, ops, bands, schedule, j);
    EntryInBand(m, ops, bands, schedule, k);
  }

  lemma EntryInBand(m: Mem, ops: seq<seq<Edge>>, bands: seq<set<nat>>, schedule: seq<nat>, k: nat)
    requires OpsApart(m, ops, bands) && Apart(Begin(m, ops), bands) && k < |ops|
    ensures var t := Interleave(Begin(m, ops), schedule);
      |t.locals| == |ops| && (Entry(t.locals[k]) >= 0 ==> Entry(t.locals[k]) in bands[k])
  {
    InterleavedAsAlone(Begin(m, ops), schedule, bands, k);
    assert OpsConfined(m, ops, bands, k);
    IterateConfined(Start(m, ops[k]), Turns(schedule, k), bands[k]);
    var alone := Iterate(Start(m, ops[k]), Turns(schedule, k));
    AccessInRange(alone.mem, alone.local.pc, bands[k]);
  }

  // No link leaves a band, at the end either.
  lemma {:induction false} StaysClosed(mems: seq<Mem>, ops: seq<seq<Edge>>, bands: seq<set<nat>>, j: nat, k: nat)
    requires InTurn(mems, ops) && OpsApart(mems[0], ops, bands) && j < |ops| && k <= |ops|
    ensures Closed(mems[k], bands[j])
  {
    assert OpsConfined(mems[0], ops, bands, j);
    EarlierTurns(mems, ops, bands, if k <= j then k else j);
    if k <= j {
      ClosedAgrees(mems[0], mems[k], bands[j]);
    } else {
      ClosedAgrees(mems[0], mems[j], bands[j]);
      assert RunsAt(mems, ops, j);
      RunsWithin(mems[j], ops[j], mems[j + 1], bands[j]);
      LaterTurns(mems, ops, bands, j, k);
      ClosedAgrees(mems[j + 1], mems[k], bands[j]);
    }
  }
}
