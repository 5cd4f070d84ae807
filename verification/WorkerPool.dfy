/** The worker pool of common/workerpool.c as a step system: every interleaving of the main thread and n
  workers over one mutex and the two condition variables startcond and endcond. A step is one access to the
  shared state; the mutex is an explicit owner, waiting releases it and waking must take it again.

  The main thread adds tasks, clears end_count, resets taskspos and empties the queue without the mutex, so these
  steps may fall between any two of a worker that holds it. Two accesses are one step only where no other thread can
  come between them to any effect: the main thread's read of end_count, which workers write under the mutex, with the
  wait or the release after it, and the two reads in the bounds check of the task that is taken. */
module WorkerPool {
  import opened Wrappers

  // A queued task: f == NULL asks a worker to exit.
  datatype Task = Job(id: nat) | Stop

  datatype WorkerPc =
    | WantLock                       // at the top of the loop
    | Checking                       // holds the mutex, as in all states down to Announced; at the while test
    | Comparing(pos: nat)            // has read taskspos
    | Taking                         // found a task
    | Taken(k: nat)                  // has task k
    | Advancing(k: nat, pos: nat)    // has read taskspos once more
    | Advanced(k: nat)               // has written taskspos
    | Empty                          // found no task
    | Counting(count: nat)           // has read end_count
    | Counted                        // has written end_count
    | Announced                      // has broadcast endcond
    | Parked                         // waiting on startcond
    | Woken                          // signalled, has to take the mutex again
    | Fetched(k: nat)                // has task k, mutex released; the body runs between here and the next WantLock
    | Exited

  datatype MainPc =
    | Idle                // between calls; tasks may be added
    | RunStart            // workerpool_run has reset end_count
    | RunLocked           // holds the mutex, about to broadcast
    | RunTesting          // holds the mutex, at while (end_count < nthreads)
    | RunWaiting          // waiting on endcond
    | RunWoken            // signalled, has to take the mutex again
    | RunDone             // mutex released, about to reset taskspos
    | RunRewound          // taskspos reset, about to clear the queue
    | Requesting(i: nat)  // workerpool_destroy has queued i exit requests
    | DestroyStart        // it has queued them all
    | DestroyLocked
    | DestroySignalled
    | Joining(i: nat)     // about to join worker i
    | Destroyed

  datatype Owner = Free | Main | Worker(w: nat)

  // `ran[k]` counts how often task k has finished, `taker[k]` is the worker that moved taskspos past it and `jobs` the
  // number of queued tasks that are not exit requests; these three only record what happened.
  datatype State = State(
    n: nat, tasks: seq<Task>, taskspos: nat, endCount: nat, owner: Owner, main: MainPc, workers: seq<WorkerPc>,
    ran: seq<nat>, taker: seq<nat>, jobs: nat)

  // Where a worker stands determines what it does next.
  datatype Step =
    | AddTask(id: nat) | BeginRun | MainLock | Broadcast | MainWait | MainFinish | MainRelock | Rewind | Clear
    | BeginDestroy | Request | Unlock | Join
    | Turn(w: nat)
    | SpuriousWake(w: nat) | MainSpurious

  predicate At(s: State, w: nat, pc: WorkerPc) {
    w < |s.workers| && s.workers[w] == pc
  }

  predicate CanTurn(s: State, w: nat) {
    w < |s.workers| && match s.workers[w] {
      case WantLock => s.owner.Free?
      case Woken => s.owner.Free?
      case Taking => s.taskspos < |s.tasks|
      case Fetched(k) => k < |s.tasks| == |s.ran|
      case Parked => false
      case Exited => false
      case _ => true
    }
  }

  predicate Enabled(s: State, step: Step) {
    match step
    case AddTask(_) => s.main.Idle?
    case BeginRun => s.main.Idle?
    case MainLock => (s.main.RunStart? || s.main.DestroyStart?) && s.owner.Free?
    case Broadcast => s.main.RunLocked? || s.main.DestroyLocked?
    case MainWait => s.main.RunTesting? && s.endCount < s.n
    case MainFinish => s.main.RunTesting? && s.endCount >= s.n
    case MainRelock => s.main.RunWoken? && s.owner.Free?
    case Rewind => s.main.RunDone?
    case Clear => s.main.RunRewound?
    case BeginDestroy => s.main.Idle?
    case Request => s.main.Requesting?
    case Unlock => s.main.DestroySignalled?
    case Join => s.main.Joining? && (s.main.i < s.n ==> At(s, s.main.i, Exited))
    case Turn(w) => CanTurn(s, w)
    case SpuriousWake(w) => At(s, w, Parked)
    case MainSpurious => s.main.RunWaiting?
  }

  // pthread_cond_broadcast(&startcond)
  function WakeAll(workers: seq<WorkerPc>): (r: seq<WorkerPc>)
    ensures |r| == |workers|
  {
    seq(|workers|, i requires 0 <= i < |workers| => if workers[i].Parked? then Woken else workers[i])
  }

  function SetWorker(s: State, w: nat, pc: WorkerPc): State
    requires w < |s.workers|
  {
    s.(workers := s.workers[w := pc])
  }

  function TakeTurn(s: State, w: nat): State
    requires CanTurn(s, w)
  {
    match s.workers[w]
    case WantLock => SetWorker(s, w, Checking).(owner := Worker(w))
    case Woken => SetWorker(s, w, Checking).(owner := Worker(w))
    case Checking => SetWorker(s, w, Comparing(s.taskspos))
    case Comparing(pos) => SetWorker(s, w, if pos == |s.tasks| then Empty else Taking)
    case Taking => SetWorker(s, w, Taken(s.taskspos))
    case Taken(k) => SetWorker(s, w, Advancing(k, s.taskspos))
    case Advancing(k, pos) => SetWorker(s, w, Advanced(k)).(taskspos := pos + 1, taker := s.taker + [w])
    case Advanced(k) => SetWorker(s, w, Fetched(k)).(owner := Free)
    case Empty => SetWorker(s, w, Counting(s.endCount))
    case Counting(count) => SetWorker(s, w, Counted).(endCount := count + 1)
    case Counted => SetWorker(s, w, Announced).(main := if s.main.RunWaiting? then RunWoken else s.main)
    case Announced => SetWorker(s, w, Parked).(owner := Free)
    case Fetched(k) => SetWorker(s, w, if s.tasks[k].Stop? then Exited else WantLock).(ran := s.ran[k := s.ran[k] + 1])
  }

  function Apply(s: State, step: Step): State
    requires Enabled(s, step)
  {
    match step
    case AddTask(id) => s.(tasks := s.tasks + [Job(id)], ran := s.ran + [0], jobs := s.jobs + 1)
    case BeginRun => s.(main := RunStart, endCount := 0)
    case MainLock => s.(main := if s.main.RunStart? then RunLocked else DestroyLocked, owner := Main)
    case Broadcast =>
      s.(main := if s.main.RunLocked? then RunTesting else DestroySignalled, workers := WakeAll(s.workers))
    case MainWait => s.(main := RunWaiting, owner := Free)
    case MainFinish => s.(main := RunDone, owner := Free)
    case MainRelock => s.(main := RunTesting, owner := Main)
    case Rewind => s.(main := RunRewound, taskspos := 0, taker := [])
    case Clear => s.(main := Idle, tasks := [], ran := [], jobs := 0)
    case BeginDestroy => s.(main := Requesting(0))
    case Request =>
      s.(main := if s.main.i + 1 < s.n then Requesting(s.main.i + 1) else DestroyStart,
         tasks := s.tasks + [Stop], ran := s.ran + [0])
    case Unlock => s.(main := Joining(0), owner := Free)
    case Join => s.(main := if s.main.i < s.n then Joining(s.main.i + 1) else Destroyed)
    case Turn(w) => TakeTurn(s, w)
    case SpuriousWake(w) => SetWorker(s, w, Woken)
    case MainSpurious => s.(main := RunWoken)
  }

  // A turn from here leaves the queue as it is.
  predicate Passes(pc: WorkerPc) {
    !pc.Advancing? && !pc.Fetched?
  }

  // ---- Counting workers ----

  function Count(workers: seq<WorkerPc>, f: WorkerPc -> bool): nat {
    if workers == [] then 0
    else Count(workers[..|workers| - 1], f) + (if f(workers[|workers| - 1]) then 1 else 0)
  }

  lemma {:induction false} CountUpdate(workers: seq<WorkerPc>, w: nat, pc: WorkerPc, f: WorkerPc -> bool)
    requires w < |workers|
    ensures Count(workers[w := pc], f) + (if f(workers[w]) then 1 else 0)
      == Count(workers, f) + (if f(pc) then 1 else 0)
  {
    var last := |workers| - 1;
    if w == last {
      assert workers[w := pc][..last] == workers[..last];
    } else {
      assert workers[w := pc][..last] == workers[..last][w := pc];
      CountUpdate(workers[..last], w, pc, f);
    }
  }

  lemma {:induction false} CountBounds(workers: seq<WorkerPc>, f: WorkerPc -> bool)
    ensures Count(workers, f) <= |workers|
    ensures Count(workers, f) == |workers| <==> forall w :: 0 <= w < |workers| ==> f(workers[w])
    ensures Count(workers, f) == 0 <==> forall w :: 0 <= w < |workers| ==> !f(workers[w])
  {
    if workers != [] {
      CountBounds(workers[..|workers| - 1], f);
    }
  }

  // ---- The invariant ----

  // The worker has been counted and waits, or is about to.
  predicate IsCounted(pc: WorkerPc) {
    pc.Counted? || pc.Announced? || pc.Parked?
  }

  // The worker holds task k and has moved taskspos past it.
  predicate Runs(pc: WorkerPc, k: nat) {
    pc == Advanced(k) || pc == Fetched(k)
  }

  // The worker has received its exit request.
  predicate IsGone(pc: WorkerPc, jobs: nat) {
    pc.Exited? || ((pc.Advanced? || pc.Fetched?) && pc.k >= jobs)
  }

  predicate Holds(pc: WorkerPc) {
    || pc.Checking? || pc.Comparing? || pc.Taking? || pc.Taken? || pc.Advancing? || pc.Advanced?
    || pc.Empty? || pc.Counting? || pc.Counted? || pc.Announced?
  }

  function AreCounted(): WorkerPc -> bool {
    (pc: WorkerPc) => IsCounted(pc)
  }

  function Gone(jobs: nat): WorkerPc -> bool {
    (pc: WorkerPc) => IsGone(pc, jobs)
  }

  predicate Signalled(s: State) {
    s.main.DestroySignalled? || s.main.Joining? || s.main.Destroyed?
  }

  // Nothing has been woken yet.
  predicate Quiet(s: State) {
    || s.main.Idle? || s.main.RunStart? || s.main.RunLocked?
    || s.main.Requesting? || s.main.DestroyStart? || s.main.DestroyLocked?
  }

  predicate Running(s: State) {
    s.main.RunTesting? || s.main.RunWaiting? || s.main.RunWoken?
  }

  // How many exit requests are queued.
  function Requested(s: State): nat {
    if s.main.Requesting? then s.main.i
    else if s.main.DestroyStart? || s.main.DestroyLocked? || Signalled(s) then s.n
    else 0
  }

  ghost predicate Shape(s: State) {
    && |s.workers| == s.n > 0
    && |s.tasks| == |s.ran| && |s.taker| == s.taskspos <= |s.tasks|
    && |s.tasks| == s.jobs + Requested(s) && (s.main.Requesting? ==> s.main.i < s.n)
    && forall k :: 0 <= k < |s.tasks| ==> (s.tasks[k].Stop? <==> k >= s.jobs)
  }

  // Exactly one thread holds the mutex, and only where the code does.
  ghost predicate MutexOk(s: State) {
    && (s.owner.Main? <==> s.main.RunLocked? || s.main.RunTesting? || s.main.DestroyLocked? || s.main.DestroySignalled?)
    && (s.owner.Worker? ==> s.owner.w < |s.workers|)
    && forall w: nat :: w < |s.workers| ==> (Holds(s.workers[w]) <==> s.owner == Worker(w))
  }

  // Task k was fetched at most once, by taker[k], and has finished once unless that worker still runs it.
  ghost predicate TaskOk(s: State, k: nat)
    requires Shape(s) && k < |s.tasks|
  {
    if s.main.RunRewound? then s.ran[k] == 1
    else if k >= s.taskspos then s.ran[k] == 0
    else s.taker[k] < s.n && s.ran[k] == if Runs(s.workers[s.taker[k]], k) then 0 else 1
  }

  // What a worker has read of taskspos is still there.
  predicate PositionOk(pc: WorkerPc, taskspos: nat, size: nat) {
    && (pc.Comparing? ==> pc.pos == taskspos)
    && (pc.Taking? ==> taskspos < size)
    && (pc.Taken? ==> pc.k == taskspos < size)
    && (pc.Advancing? ==> pc.k == pc.pos == taskspos < size)
  }

  ghost predicate WorkerOk(s: State, w: nat)
    requires Shape(s) && w < s.n
  {
    && PositionOk(s.workers[w], s.taskspos, |s.tasks|)
    && (s.workers[w].Advanced? || s.workers[w].Fetched? ==> s.workers[w].k < s.taskspos && s.taker[s.workers[w].k] == w)
    && (IsGone(s.workers[w], s.jobs) <==> TookStop(s, w))
  }

  // Worker w fetched an exit request.
  ghost predicate TookStop(s: State, w: nat)
    requires |s.taker| == s.taskspos
  {
    exists k :: s.jobs <= k < s.taskspos && s.taker[k] == w
  }

  // As many workers are gone as exit requests were fetched, each by a different worker.
  ghost predicate StopsOk(s: State)
    requires Shape(s)
  {
    && Count(s.workers, Gone(s.jobs)) == (if s.taskspos > s.jobs then s.taskspos - s.jobs else 0)
    && forall k, k' :: s.jobs <= k < k' < s.taskspos ==> s.taker[k] != s.taker[k']
  }

  ghost predicate Joined(s: State)
    requires Shape(s)
  {
    && (s.main.Joining? ==> s.main.i <= s.n && forall w :: 0 <= w < s.main.i ==> s.workers[w].Exited?)
    && (s.main.Destroyed? ==> forall w :: 0 <= w < s.n ==> s.workers[w].Exited?)
  }

  // Who holds the mutex and which task; this needs nothing of how the run began.
  ghost predicate Core(s: State) {
    && Shape(s) && MutexOk(s) && StopsOk(s) && Joined(s)
    && (forall k: nat :: k < |s.tasks| ==> TaskOk(s, k))
    && (forall w: nat :: w < s.n ==> WorkerOk(s, w))
  }

  function CountedCount(s: State): nat {
    Count(s.workers, AreCounted())
  }

  // The worker that holds the mutex, if any.
  function Holder(s: State): WorkerPc {
    if s.owner.Worker? && s.owner.w < |s.workers| then s.workers[s.owner.w] else WantLock
  }

  // How many workers have been counted in each phase of a call that began with all of them counted.
  ghost predicate Phases(s: State) {
    && (Quiet(s) ==> s.taskspos == 0 && CountedCount(s) == s.n)
    && (s.main.RunStart? || s.main.RunLocked? ==> s.endCount == 0)
    && (Running(s) ==> s.endCount == CountedCount(s))
    && (Running(s) && CountedCount(s) > 0 ==> s.taskspos == |s.tasks|)
    && (s.main.RunWaiting? ==> s.endCount < s.n || Holder(s).Counted?)
    && (s.main.RunDone? ==> s.taskspos == |s.tasks|)
    && (s.main.RunRewound? ==> s.taskspos == 0)
    && (s.main.RunDone? || s.main.RunRewound? ==> s.owner.Free? && CountedCount(s) == s.n)
    && (Signalled(s) ==> CountedCount(s) == 0)
    && (Holder(s).Empty? || Holder(s).Counting? ==> Running(s) && s.taskspos == |s.tasks|)
    && (Holder(s).Counting? ==> Holder(s).count == s.endCount)
  }

  ghost predicate Inv(s: State) {
    Core(s) && Phases(s)
  }

  // A worker between its start and its first wait.
  predicate Starting(pc: WorkerPc) {
    || pc.WantLock? || pc.Checking? || pc == Comparing(0) || pc.Empty? || pc.Counting? || pc.Counted? || pc.Announced?
    || pc.Parked?
  }

  // A pool as workerpool_create leaves it: each worker may be anywhere on its way to its first wait, or there.
  ghost predicate Fresh(s: State) {
    && s.n > 0 && |s.workers| == s.n && (forall w :: 0 <= w < s.n ==> Starting(s.workers[w]))
    && s.tasks == [] && s.ran == [] && s.taker == [] && s.taskspos == 0 && s.jobs == 0
    && MutexOk(s) && s.main.Idle?
  }

  // A pool whose workers have all been counted.
  ghost predicate Init(s: State) {
    Fresh(s) && forall w :: 0 <= w < s.n ==> IsCounted(s.workers[w])
  }

  lemma FreshCore(s: State)
    requires Fresh(s)
    ensures Core(s)
  {
    CountBounds(s.workers, Gone(0));
  }

  lemma InitInv(s: State)
    requires Init(s)
    ensures Inv(s)
  {
    FreshCore(s);
    CountBounds(s.workers, AreCounted());
  }

  // ---- Every step keeps the core ----

  lemma CountsAfter(s: State, w: nat, pc: WorkerPc)
    requires w < |s.workers|
    ensures Count(s.workers[w := pc], AreCounted()) + (if IsCounted(s.workers[w]) then 1 else 0)
      == Count(s.workers, AreCounted()) + (if IsCounted(pc) then 1 else 0)
    ensures Count(s.workers[w := pc], Gone(s.jobs)) + (if IsGone(s.workers[w], s.jobs) then 1 else 0)
      == Count(s.workers, Gone(s.jobs)) + (if IsGone(pc, s.jobs) then 1 else 0)
  {
    CountUpdate(s.workers, w, pc, AreCounted());
    CountUpdate(s.workers, w, pc, Gone(s.jobs));
  }

  // Worker w goes from one state to another while queue and records stay.
  ghost predicate Moved(s: State, s': State, w: nat)
    requires Shape(s)
  {
    && w < s.n && |s'.workers| == s.n && s'.workers == s.workers[w := s'.workers[w]]
    && s' == s.(workers := s'.workers, owner := s'.owner, endCount := s'.endCount, main := s'.main)
    && (s'.main == s.main || (s.main.RunWaiting? && s'.main.RunWoken?))
    && IsGone(s'.workers[w], s.jobs) == IsGone(s.workers[w], s.jobs) && s'.workers[w].Exited? == s.workers[w].Exited?
    && (forall k :: Runs(s'.workers[w], k) == Runs(s.workers[w], k))
    && PositionOk(s'.workers[w], s.taskspos, |s.tasks|)
  }

  lemma CoreOfMove(s: State, s': State, w: nat)
    requires Core(s) && Moved(s, s', w) && MutexOk(s')
    ensures Core(s')
  {
    CountsAfter(s, w, s'.workers[w]);
    forall k: nat | k < |s'.tasks| ensures TaskOk(s', k) {
      assert TaskOk(s, k);
    }
    forall v: nat | v < s'.n ensures WorkerOk(s', v) {
      MoveKeepsWorker(s, s', w, v);
    }
  }

  lemma MoveKeepsWorker(s: State, s': State, w: nat, v: nat)
    requires Core(s) && Moved(s, s', w) && v < s.n
    ensures WorkerOk(s', v)
  {
    assert WorkerOk(s, v);
    assert s'.workers[w].Advanced? || s'.workers[w].Fetched? ==> Runs(s.workers[w], s'.workers[w].k);
    assert TookStop(s', v) == TookStop(s, v);
  }

  lemma CoreMoving(s: State, w: nat)
    requires Core(s) && CanTurn(s, w) && Passes(s.workers[w])
    ensures Core(TakeTurn(s, w))
  {
    assert WorkerOk(s, w);
    MutexMoving(s, w);
    CoreOfMove(s, TakeTurn(s, w), w);
  }

  lemma MutexMoving(s: State, w: nat)
    requires MutexOk(s) && CanTurn(s, w) && Passes(s.workers[w])
    ensures MutexOk(TakeTurn(s, w))
  {
  }

  lemma CoreWaking(s: State, step: Step)
    requires Core(s) && Enabled(s, step) && step.SpuriousWake?
    ensures Core(Apply(s, step))
  {
    CoreOfMove(s, Apply(s, step), step.w);
  }

  lemma CoreAdvancing(s: State, w: nat)
    requires Core(s) && CanTurn(s, w) && s.workers[w].Advancing? && !s.main.RunRewound?
    ensures Core(TakeTurn(s, w))
  {
    var s' := TakeTurn(s, w);
    assert WorkerOk(s, w);
    CountsAfter(s, w, Advanced(s.taskspos));
    forall k: nat | k < |s'.tasks| ensures TaskOk(s', k) {
      assert TaskOk(s, k);
    }
    forall v: nat | v < s'.n ensures WorkerOk(s', v) {
      AdvanceKeepsWorker(s, w, v);
    }
  }

  lemma AdvanceKeepsWorker(s: State, w: nat, v: nat)
    requires Core(s) && CanTurn(s, w) && s.workers[w].Advancing? && v < s.n && Shape(TakeTurn(s, w))
    ensures WorkerOk(TakeTurn(s, w), v)
  {
    var s' := TakeTurn(s, w);
    assert WorkerOk(s, v) && WorkerOk(s, w);
    if TookStop(s, v) {
      var k :| s.jobs <= k < s.taskspos && s.taker[k] == v;
      assert s'.taker[k] == v;
    }
    assert s'.taker[s.taskspos] == w;
  }

  lemma CoreRunning(s: State, w: nat)
    requires Core(s) && CanTurn(s, w) && s.workers[w].Fetched? && !s.main.RunRewound?
    ensures Core(TakeTurn(s, w))
  {
    var s' := TakeTurn(s, w);
    assert WorkerOk(s, w);
    CountsAfter(s, w, s'.workers[w]);
    forall k: nat | k < |s'.tasks| ensures TaskOk(s', k) {
      assert TaskOk(s, k);
    }
    forall v: nat | v < s'.n ensures WorkerOk(s', v) {
      assert WorkerOk(s, v);
      assert TookStop(s', v) == TookStop(s, v);
    }
  }

  lemma CoreQueueing(s: State, step: Step)
    requires Core(s) && (step.AddTask? || step.BeginDestroy? || step.Request?) && Enabled(s, step)
    ensures Core(Apply(s, step))
  {
    var s' := Apply(s, step);
    if step.AddTask? {
      CountBounds(s.workers, Gone(s.jobs));
      CountBounds(s.workers, Gone(s'.jobs));
    }
    forall k: nat | k < |s'.tasks| ensures TaskOk(s', k) {
      assert k < |s.tasks| ==> TaskOk(s, k);
    }
    forall v: nat | v < s'.n ensures WorkerOk(s', v) {
      assert WorkerOk(s, v);
      assert TookStop(s', v) == TookStop(s, v);
    }
  }

  lemma {:induction false} WakeAllCounts(workers: seq<WorkerPc>, jobs: nat)
    ensures Count(WakeAll(workers), Gone(jobs)) == Count(workers, Gone(jobs))
    ensures (forall w :: 0 <= w < |workers| ==> !Holds(workers[w])) ==> Count(WakeAll(workers), AreCounted()) == 0
  {
    if workers != [] {
      var last := |workers| - 1;
      assert WakeAll(workers)[..last] == WakeAll(workers[..last]);
      WakeAllCounts(workers[..last], jobs);
    }
  }

  // Steps of the main thread that leave queue and workers alone.
  lemma CoreMain(s: State, step: Step)
    requires Core(s) && Enabled(s, step)
    requires step.BeginRun? || step.MainLock? || step.MainWait? || step.MainFinish? || step.MainRelock? || step.MainSpurious?
             || step.Unlock? || step.Join?
    ensures Core(Apply(s, step))
  {
    var s' := Apply(s, step);
    forall k: nat | k < |s'.tasks| ensures TaskOk(s', k) {
      assert TaskOk(s, k);
    }
    forall v: nat | v < s'.n ensures WorkerOk(s', v) {
      assert WorkerOk(s, v);
      assert TookStop(s', v) == TookStop(s, v);
    }
  }

  lemma CoreBroadcast(s: State, step: Step)
    requires Core(s) && Enabled(s, step) && step.Broadcast?
    ensures Core(Apply(s, step))
  {
    var s' := Apply(s, step);
    WakeAllCounts(s.workers, s.jobs);
    forall k: nat | k < |s'.tasks| ensures TaskOk(s', k) {
      assert TaskOk(s, k);
    }
    forall v: nat | v < s'.n ensures WorkerOk(s', v) {
      assert WorkerOk(s, v);
      assert TookStop(s', v) == TookStop(s, v);
    }
  }

  // What every step of every interleaving keeps but the two that empty the queue, whichever waits end without a signal.
  lemma StepKeepsCore(s: State, step: Step)
    requires Core(s) && Enabled(s, step) && !step.Rewind? && !step.Clear? && !s.main.RunRewound?
    ensures Core(Apply(s, step)) && !Apply(s, step).main.RunRewound?
  {
    match step
    case Turn(w) =>
      if s.workers[w].Advancing? {
        CoreAdvancing(s, w);
      } else if s.workers[w].Fetched? {
        CoreRunning(s, w);
      } else {
        CoreMoving(s, w);
      }
    case SpuriousWake(_) => CoreWaking(s, step);
    case AddTask(_) => CoreQueueing(s, step);
    case BeginDestroy => CoreQueueing(s, step);
    case Request => CoreQueueing(s, step);
    case Broadcast => CoreBroadcast(s, step);
    case _ => CoreMain(s, step);
  }

  // ---- Runs that begin with all workers counted ----

  // A worker that has not been counted is awake, so the main thread waits for it or has let the workers go.
  lemma Uncounted(s: State, w: nat)
    requires Shape(s) && Phases(s) && w < s.n && !IsCounted(s.workers[w])
    ensures Running(s) || Signalled(s)
  {
    CountBounds(s.workers, AreCounted());
  }

  // Between the lock and the test, or from there to the task.
  predicate Approaches(pc: WorkerPc) {
    pc.WantLock? || pc.Woken? || pc.Checking? || pc.Taking? || pc.Taken? || pc.Advanced? || pc.Empty?
  }

  lemma PhasesOfApproach(s: State, w: nat)
    requires Shape(s) && MutexOk(s) && Phases(s) && CanTurn(s, w) && Approaches(s.workers[w])
    ensures Phases(TakeTurn(s, w))
  {
    Uncounted(s, w);
    CountsAfter(s, w, TakeTurn(s, w).workers[w]);
  }

  // Once the workers are let go each finds an exit request.
  lemma PhasesOfComparing(s: State, w: nat)
    requires Core(s) && Phases(s) && CanTurn(s, w) && s.workers[w].Comparing?
    ensures Phases(TakeTurn(s, w))
  {
    Uncounted(s, w);
    assert WorkerOk(s, w);
    if s.taskspos == |s.tasks| {
      CountBounds(s.workers, Gone(s.jobs));
    }
    CountsAfter(s, w, TakeTurn(s, w).workers[w]);
  }

  lemma PhasesOfCounting(s: State, w: nat)
    requires Shape(s) && MutexOk(s) && Phases(s) && CanTurn(s, w) && s.workers[w].Counting?
    ensures Phases(TakeTurn(s, w))
  {
    CountsAfter(s, w, Counted);
  }

  lemma PhasesOfParking(s: State, w: nat)
    requires Shape(s) && MutexOk(s) && Phases(s) && CanTurn(s, w) && (s.workers[w].Counted? || s.workers[w].Announced?)
    ensures Phases(TakeTurn(s, w))
  {
    CountsAfter(s, w, TakeTurn(s, w).workers[w]);
  }

  lemma PhasesOfTasks(s: State, w: nat)
    requires Core(s) && Phases(s) && CanTurn(s, w) && !Passes(s.workers[w])
    ensures Phases(TakeTurn(s, w))
  {
    Uncounted(s, w);
    assert WorkerOk(s, w);
    CountsAfter(s, w, TakeTurn(s, w).workers[w]);
  }

  lemma PhasesOfTurn(s: State, w: nat)
    requires Inv(s) && CanTurn(s, w)
    ensures Phases(TakeTurn(s, w))
  {
    match s.workers[w]
    case Comparing(_) => PhasesOfComparing(s, w);
    case Counting(_) => PhasesOfCounting(s, w);
    case Counted => PhasesOfParking(s, w);
    case Announced => PhasesOfParking(s, w);
    case Advancing(_, _) => PhasesOfTasks(s, w);
    case Fetched(_) => PhasesOfTasks(s, w);
    case _ => PhasesOfApproach(s, w);
  }

  // The main thread waits for the workers or goes on waiting.
  lemma PhasesOfWaiting(s: State, step: Step)
    requires Shape(s) && MutexOk(s) && Phases(s) && Enabled(s, step)
    requires step.MainWait? || step.MainFinish? || step.MainRelock? || step.MainSpurious?
    ensures Phases(Apply(s, step)) && !s.main.RunRewound?
  {
    CountBounds(s.workers, AreCounted());
  }

  lemma PhasesOfCalls(s: State, step: Step)
    requires Shape(s) && MutexOk(s) && Phases(s) && Enabled(s, step)
    requires step.AddTask? || step.BeginRun? || step.BeginDestroy? || step.Request? || step.MainLock? || step.Broadcast?
             || step.Unlock? || step.Join?
    ensures Phases(Apply(s, step)) && !s.main.RunRewound?
  {
    if step.Broadcast? {
      WakeAllCounts(s.workers, s.jobs);
    }
  }

  // With all workers waiting the main thread empties the queue undisturbed.
  lemma EmptyingKeepsInv(s: State, step: Step)
    requires Inv(s) && Enabled(s, step) && (step.Rewind? || step.Clear?)
    ensures Inv(Apply(s, step))
  {
    var s' := Apply(s, step);
    AllParked(s);
    CountBounds(s'.workers, Gone(s'.jobs));
    forall k: nat | k < |s'.tasks| ensures TaskOk(s', k) {
      assert TaskOk(s, k);
    }
    forall v: nat | v < s'.n ensures WorkerOk(s', v) {
      assert WorkerOk(s, v);
    }
  }

  lemma AllParked(s: State)
    requires Shape(s) && MutexOk(s) && Phases(s) && (s.main.RunDone? || s.main.RunRewound?)
    ensures forall w :: 0 <= w < s.n ==> s.workers[w].Parked?
  {
    CountBounds(s.workers, AreCounted());
    forall w: nat | w < s.n ensures s.workers[w].Parked? {
      assert AreCounted()(s.workers[w]);
    }
  }

  // What every step of every interleaving keeps, as long as no worker's wait ends without a signal. The main thread
  // tests its condition again, so its waits may.
  lemma StepKeepsInv(s: State, step: Step)
    requires Inv(s) && Enabled(s, step) && !step.SpuriousWake?
    ensures Inv(Apply(s, step))
  {
    if step.Rewind? || step.Clear? {
      EmptyingKeepsInv(s, step);
    } else {
      StepKeepsPhases(s, step);
      StepKeepsCore(s, step);
    }
  }

  lemma StepKeepsPhases(s: State, step: Step)
    requires Inv(s) && Enabled(s, step) && !step.SpuriousWake? && !step.Rewind? && !step.Clear?
    ensures Phases(Apply(s, step)) && !s.main.RunRewound?
  {
    if s.main.RunRewound? {
      AllParked(s);
    } else {
      match step
      case Turn(w) => PhasesOfTurn(s, w);
      case MainWait => PhasesOfWaiting(s, step);
      case MainFinish => PhasesOfWaiting(s, step);
      case MainRelock => PhasesOfWaiting(s, step);
      case MainSpurious => PhasesOfWaiting(s, step);
      case _ => PhasesOfCalls(s, step);
    }
  }

  // ---- Runs ----

  // The state after a sequence of steps, if each of them is enabled in turn.
  predicate CanRun(s: State, steps: seq<Step>)
    decreases |steps|
  {
    steps == [] || (Enabled(s, steps[0]) && CanRun(Apply(s, steps[0]), steps[1..]))
  }

  function After(s: State, steps: seq<Step>): State
    requires CanRun(s, steps)
    decreases |steps|
  {
    if steps == [] then s else After(Apply(s, steps[0]), steps[1..])
  }

  // How many waits of workers end without a signal.
  function Wakes(steps: seq<Step>): nat {
    if steps == [] then 0 else (if steps[0].SpuriousWake? then 1 else 0) + Wakes(steps[1..])
  }

  // How many runs have come to their end.
  function Rewinds(steps: seq<Step>): nat {
    if steps == [] then 0 else (if steps[0].Rewind? then 1 else 0) + Rewinds(steps[1..])
  }

  ghost predicate AtMostOnce(s: State) {
    |s.ran| == |s.tasks| && forall k :: 0 <= k < |s.tasks| ==> s.ran[k] <= 1
  }

  ghost predicate AllRan(s: State) {
    |s.ran| == |s.tasks| && forall k :: 0 <= k < |s.tasks| ==> s.ran[k] == 1
  }

  lemma {:induction false} RunKeepsInv(s: State, steps: seq<Step>)
    requires Inv(s) && CanRun(s, steps) && Wakes(steps) == 0
    ensures Inv(After(s, steps))
    decreases |steps|
  {
    if steps != [] {
      StepKeepsInv(s, steps[0]);
      RunKeepsInv(Apply(s, steps[0]), steps[1..]);
    }
  }

  // Safety of workerpool_run over every run: no task ever finishes twice; when the call is about to return every
  // queued task has finished exactly once and every worker is parked again, so that the next run starts as the
  // first one did.
  lemma RunIsSafe(s: State, steps: seq<Step>)
    requires Init(s) && CanRun(s, steps) && Wakes(steps) == 0
    ensures var t := After(s, steps);
            && AtMostOnce(t) && (t.main.RunDone? ==> AllRan(t))
            && (t.main.RunDone? ==> forall w :: 0 <= w < |t.workers| ==> t.workers[w].Parked?)
            && (t.main.Idle? ==> forall w :: 0 <= w < |t.workers| ==> IsCounted(t.workers[w]))
            && (t.main.Idle? && t.tasks == [] ==> Init(t))
  {
    InitInv(s);
    RunKeepsInv(s, steps);
    var t := After(s, steps);
    forall k: nat | k < |t.tasks| ensures t.ran[k] <= 1 && (t.main.RunDone? ==> t.ran[k] == 1) {
      assert TaskOk(t, k);
      if t.main.RunDone? {
        AllParked(t);
      }
    }
    if t.main.RunDone? {
      AllParked(t);
    }
    if t.main.Idle? {
      CountBounds(t.workers, AreCounted());
      forall w | 0 <= w < |t.workers| ensures IsCounted(t.workers[w]) {
        assert AreCounted()(t.workers[w]);
      }
    }
  }

  // Every worker has consumed exactly one exit request, and every task queued before has finished exactly once.
  ghost predicate ShutDown(s: State) {
    && AllRan(s) && |s.tasks| == |s.taker| == s.jobs + s.n && |s.workers| == s.n
    && (forall k, k' :: s.jobs <= k < k' < |s.taker| ==> s.taker[k] != s.taker[k'])
    && forall w :: 0 <= w < s.n ==> s.workers[w].Exited? && exists k :: s.jobs <= k < |s.taker| && s.taker[k] == w
  }

  lemma JoinedAll(t: State)
    requires Core(t) && t.main.Destroyed?
    ensures ShutDown(t)
  {
    CountBounds(t.workers, Gone(t.jobs));
    forall k: nat | k < |t.tasks| ensures t.ran[k] == 1 {
      assert TaskOk(t, k);
    }
    forall w: nat | w < t.n ensures t.workers[w].Exited? && exists k :: t.jobs <= k < |t.taker| && t.taker[k] == w {
      assert WorkerOk(t, w);
    }
  }

  // Safety of workerpool_destroy, after any number of runs.
  lemma DestroyIsSafe(s: State, steps: seq<Step>)
    requires Init(s) && CanRun(s, steps) && Wakes(steps) == 0 && After(s, steps).main.Destroyed?
    ensures ShutDown(After(s, steps))
  {
    InitInv(s);
    RunKeepsInv(s, steps);
    JoinedAll(After(s, steps));
  }

  lemma {:induction false} RunKeepsCore(s: State, steps: seq<Step>)
    requires Core(s) && !s.main.RunRewound? && CanRun(s, steps) && Rewinds(steps) == 0
    ensures Core(After(s, steps))
    decreases |steps|
  {
    if steps != [] {
      StepKeepsCore(s, steps[0]);
      RunKeepsCore(Apply(s, steps[0]), steps[1..]);
    }
  }

  // A pool destroyed before it has run anything shuts down in any case: its workers need not have reached their waits,
  // and these may end without a signal.
  lemma DestroyUnused(s: State, steps: seq<Step>)
    requires Fresh(s) && CanRun(s, steps) && Rewinds(steps) == 0 && After(s, steps).main.Destroyed?
    ensures ShutDown(After(s, steps))
  {
    FreshCore(s);
    RunKeepsCore(s, steps);
    JoinedAll(After(s, steps));
  }

  // ---- Progress ----

  // A step of a call under way that some thread takes of its own accord.
  predicate InsideCall(step: Step) {
    !step.SpuriousWake? && !step.MainSpurious? && !step.AddTask? && !step.BeginRun? && !step.BeginDestroy?
  }

  // No deadlock: whenever the main thread is inside workerpool_run or workerpool_destroy some thread can move.
  lemma NeverStuck(s: State) returns (step: Step)
    requires Inv(s) && !s.main.Idle? && !s.main.Destroyed?
    ensures Enabled(s, step) && InsideCall(step)
  {
    CountBounds(s.workers, AreCounted());
    if s.owner.Worker? {
      assert WorkerOk(s, s.owner.w);
      step := Turn(s.owner.w);
    } else if s.owner.Main? {
      step := if s.main.RunTesting? then (if s.endCount < s.n then MainWait else MainFinish)
              else if s.main.DestroySignalled? then Unlock else Broadcast;
    } else {
      match s.main
      case RunStart => step := MainLock;
      case Requesting(_) => step := Request;
      case DestroyStart => step := MainLock;
      case RunDone => step := Rewind;
      case RunRewound => step := Clear;
      case RunWoken => step := MainRelock;
      case RunWaiting =>
        var w: nat :| w < s.n && !AreCounted()(s.workers[w]);
        assert WorkerOk(s, w) && !Holds(s.workers[w]);
        step := Turn(w);
      case Joining(i) =>
        if i == s.n || s.workers[i].Exited? {
          step := Join;
        } else {
          assert !AreCounted()(s.workers[i]) && WorkerOk(s, i) && !Holds(s.workers[i]);
          step := Turn(i);
        }
    }
  }

  function WorkerWork(pc: WorkerPc): nat {
    match pc
    case WantLock => 9
    case Woken => 9
    case Checking => 8
    case Comparing(_) => 7
    case Empty => 6
    case Counting(_) => 5
    case Counted => 4
    case Announced => 1
    case Parked => 0
    case Taking => 6
    case Taken(_) => 5
    case Advancing(_, _) => 4
    case Advanced(_) => 11
    case Fetched(_) => 10
    case Exited => 0
  }

  function TotalWork(workers: seq<WorkerPc>): nat {
    if workers == [] then 0 else TotalWork(workers[..|workers| - 1]) + WorkerWork(workers[|workers| - 1])
  }

  function MainWork(s: State): nat {
    match s.main
    case Idle => 0
    case RunDone => 2
    case RunRewound => 1
    case RunWaiting => 2
    case RunTesting => 3
    case RunWoken => 4
    case RunLocked => 9 * s.n + 4
    case RunStart => 9 * s.n + 5
    case Destroyed => 0
    case Joining(i) => if i <= s.n then s.n - i + 1 else 0
    case DestroySignalled => s.n + 2
    case DestroyLocked => 10 * s.n + 3
    case DestroyStart => 10 * s.n + 4
    case Requesting(i) => if i <= s.n then 10 * s.n + 4 + 9 * (s.n - i) else 0
  }

  function Unfetched(s: State): nat {
    if s.main.RunDone? || s.main.RunRewound? || s.taskspos > |s.tasks| then 0 else |s.tasks| - s.taskspos
  }

  // The steps left before the current call returns.
  function WorkLeft(s: State): nat {
    MainWork(s) + TotalWork(s.workers) + 8 * Unfetched(s)
  }

  lemma {:induction false} WorkUpdate(workers: seq<WorkerPc>, w: nat, pc: WorkerPc)
    requires w < |workers|
    ensures TotalWork(workers[w := pc]) + WorkerWork(workers[w]) == TotalWork(workers) + WorkerWork(pc)
  {
    var last := |workers| - 1;
    if w == last {
      assert workers[w := pc][..last] == workers[..last];
    } else {
      assert workers[w := pc][..last] == workers[..last][w := pc];
      WorkUpdate(workers[..last], w, pc);
    }
  }

  lemma {:induction false} WakeAllWork(workers: seq<WorkerPc>)
    ensures TotalWork(WakeAll(workers)) <= TotalWork(workers) + 9 * |workers|
  {
    if workers != [] {
      var last := |workers| - 1;
      assert WakeAll(workers)[..last] == WakeAll(workers[..last]);
      WakeAllWork(workers[..last]);
    }
  }

  // Every step of a call uses up work, so a call returns after at most WorkLeft steps, whatever the schedule.
  lemma StepsUseWork(s: State, step: Step)
    requires Inv(s) && Enabled(s, step) && InsideCall(step)
    ensures WorkLeft(Apply(s, step)) < WorkLeft(s)
  {
    if step.Turn? {
      if s.workers[step.w].Advancing? {
        FetchingUsesWork(s, step.w);
      } else {
        TurnUsesWork(s, step.w);
      }
    } else {
      MainStepsUseWork(s, step);
    }
  }

  lemma TurnUsesWork(s: State, w: nat)
    requires CanTurn(s, w) && !s.workers[w].Advancing?
    ensures WorkLeft(TakeTurn(s, w)) < WorkLeft(s)
  {
    var s' := TakeTurn(s, w);
    WorkUpdate(s.workers, w, s'.workers[w]);
    TurnFrame(s, w);
    TurnWork(s, w);
    assert Unfetched(s') == Unfetched(s);
  }

  lemma TurnFrame(s: State, w: nat)
    requires CanTurn(s, w) && !s.workers[w].Advancing?
    ensures var s' := TakeTurn(s, w);
            s' == s.(workers := s.workers[w := s'.workers[w]], owner := s'.owner, endCount := s'.endCount, main := s'.main, ran := s'.ran)
  {
  }

  lemma TurnWork(s: State, w: nat)
    requires CanTurn(s, w) && !s.workers[w].Advancing?
    ensures MainWork(TakeTurn(s, w)) <= MainWork(s) + (if s.workers[w].Counted? then 2 else 0)
    ensures WorkerWork(TakeTurn(s, w).workers[w]) + (if s.workers[w].Counted? then 2 else 0) < WorkerWork(s.workers[w])
  {
    MainAtTurn(s, w);
  }

  // The announcement wakes the main thread, which costs two.
  lemma MainAtTurn(s: State, w: nat)
    requires CanTurn(s, w)
    ensures MainWork(TakeTurn(s, w)) <= MainWork(s) + (if s.workers[w].Counted? then 2 else 0)
  {
    var s' := TakeTurn(s, w);
    assert s'.main == s.main || (s.workers[w].Counted? && s.main.RunWaiting? && s'.main.RunWoken?);
  }

  lemma FetchingUsesWork(s: State, w: nat)
    requires Inv(s) && CanTurn(s, w) && s.workers[w].Advancing?
    ensures WorkLeft(TakeTurn(s, w)) < WorkLeft(s)
  {
    Uncounted(s, w);
    assert WorkerOk(s, w);
    WorkUpdate(s.workers, w, TakeTurn(s, w).workers[w]);
  }

  lemma MainStepsUseWork(s: State, step: Step)
    requires Shape(s) && Joined(s) && Phases(s) && Enabled(s, step)
    requires step.MainLock? || step.MainWait? || step.MainFinish? || step.MainRelock? || step.Rewind? || step.Clear? || step.Request?
             || step.Unlock? || step.Join? || step.Broadcast?
    ensures WorkLeft(Apply(s, step)) < WorkLeft(s)
  {
    if step.Broadcast? {
      WakeAllWork(s.workers);
    }
    CountBounds(s.workers, AreCounted());
  }

  // Hence a call ends: a schedule inside one call is never longer than the work it started with, and by
  // `NeverStuck` it can only stop because the call has returned.
  lemma {:induction false} CallIsBounded(s: State, steps: seq<Step>)
    requires Inv(s) && CanRun(s, steps) && Wakes(steps) == 0
    requires forall i :: 0 <= i < |steps| ==> InsideCall(steps[i])
    ensures |steps| <= WorkLeft(s)
    decreases |steps|
  {
    if steps != [] {
      StepKeepsInv(s, steps[0]);
      StepsUseWork(s, steps[0]);
      CallIsBounded(Apply(s, steps[0]), steps[1..]);
    }
  }

  // ---- Schedules ----

  ghost predicate Leads(s: State, t: State, wakes: nat, rewinds: nat) {
    exists steps :: LeadsBy(s, t, steps, wakes, rewinds)
  }

  ghost predicate LeadsBy(s: State, t: State, steps: seq<Step>, wakes: nat, rewinds: nat) {
    CanRun(s, steps) && After(s, steps) == t && Wakes(steps) == wakes && Rewinds(steps) == rewinds
  }

  lemma LeadsNowhere(s: State)
    ensures Leads(s, s, 0, 0)
  {
    assert LeadsBy(s, s, [], 0, 0);
  }

  lemma {:induction false} LeadsOn(s: State, steps: seq<Step>, step: Step, wakes: nat, rewinds: nat)
    requires CanRun(s, steps) && Enabled(After(s, steps), step)
    requires LeadsBy(s, After(s, steps), steps, wakes, rewinds)
    ensures LeadsBy(s, Apply(After(s, steps), step), steps + [step],
                    wakes + (if step.SpuriousWake? then 1 else 0), rewinds + (if step.Rewind? then 1 else 0))
    decreases |steps|
  {
    var all := steps + [step];
    if steps == [] {
      assert all == [step] && [step][1..] == [];
      assert CanRun(Apply(s, step), []) && Wakes([]) == 0;
    } else {
      assert all[0] == steps[0] && all[1..] == steps[1..] + [step];
      LeadsOn(Apply(s, steps[0]), steps[1..], step, Wakes(steps[1..]), Rewinds(steps[1..]));
    }
  }

  // One more step of the schedule.
  lemma Do(s: State, t: State, wakes: nat, rewinds: nat, step: Step)
    requires Leads(s, t, wakes, rewinds) && Enabled(t, step)
    ensures Leads(s, Apply(t, step), wakes + (if step.SpuriousWake? then 1 else 0), rewinds + (if step.Rewind? then 1 else 0))
  {
    var steps :| LeadsBy(s, t, steps, wakes, rewinds);
    LeadsOn(s, steps, step, wakes, rewinds);
  }

  predicate MayLock(pc: WorkerPc) {
    pc.WantLock? || pc.Woken?
  }

  // Worker w holds the mutex.
  function Hold(s: State, w: nat, pc: WorkerPc): State
    requires w < |s.workers|
  {
    s.(workers := s.workers[w := pc], owner := Worker(w))
  }

  lemma LockOne(s: State, t: State, wakes: nat, rewinds: nat, w: nat)
    requires Leads(s, t, wakes, rewinds) && t.owner.Free? && w < |t.workers| && MayLock(t.workers[w])
    ensures Leads(s, Hold(t, w, Checking), wakes, rewinds)
  {
    Do(s, t, wakes, rewinds, Turn(w));
  }

  // The holder takes a step that changes nothing but where it is.
  lemma HoldOn(s: State, t: State, wakes: nat, rewinds: nat, w: nat, pc: WorkerPc, next: WorkerPc)
    requires w < |t.workers| && Leads(s, Hold(t, w, pc), wakes, rewinds) && CanTurn(Hold(t, w, pc), w)
    requires TakeTurn(Hold(t, w, pc), w) == SetWorker(Hold(t, w, pc), w, next)
    ensures Leads(s, Hold(t, w, next), wakes, rewinds)
  {
    Do(s, Hold(t, w, pc), wakes, rewinds, Turn(w));
    assert t.workers[w := pc][w := next] == t.workers[w := next];
  }

  // Worker w finds no task and waits.
  function Park(s: State, w: nat): State
    requires w < |s.workers|
  {
    s.(workers := s.workers[w := Parked], endCount := s.endCount + 1, main := if s.main.RunWaiting? then RunWoken else s.main)
  }

  lemma ParkOne(s: State, t: State, wakes: nat, rewinds: nat, w: nat)
    requires Leads(s, t, wakes, rewinds) && t.owner.Free? && w < |t.workers| && MayLock(t.workers[w]) && t.taskspos == |t.tasks|
    ensures Leads(s, Park(t, w), wakes, rewinds)
  {
    LockOne(s, t, wakes, rewinds, w);
    HoldOn(s, t, wakes, rewinds, w, Checking, Comparing(t.taskspos));
    HoldOn(s, t, wakes, rewinds, w, Comparing(t.taskspos), Empty);
    HoldOn(s, t, wakes, rewinds, w, Empty, Counting(t.endCount));
    ParkCounting(s, t, wakes, rewinds, w, t.endCount);
  }

  lemma ParkCounting(s: State, t: State, wakes: nat, rewinds: nat, w: nat, count: nat)
    requires w < |t.workers| && Leads(s, Hold(t, w, Counting(count)), wakes, rewinds) && t.owner.Free?
    ensures Leads(s, Park(t.(endCount := count), w), wakes, rewinds)
  {
    Do(s, Hold(t, w, Counting(count)), wakes, rewinds, Turn(w));
    var counted := t.(endCount := count + 1);
    assert t.workers[w := Counting(count)][w := Counted] == t.workers[w := Counted];
    Do(s, Hold(counted, w, Counted), wakes, rewinds, Turn(w));
    var announced := counted.(main := if t.main.RunWaiting? then RunWoken else t.main);
    assert t.workers[w := Counted][w := Announced] == t.workers[w := Announced];
    Do(s, Hold(announced, w, Announced), wakes, rewinds, Turn(w));
    assert t.workers[w := Announced][w := Parked] == t.workers[w := Parked];
  }

  // Worker w takes the next task.
  function Fetch(s: State, w: nat): State
    requires w < |s.workers|
  {
    s.(workers := s.workers[w := Fetched(s.taskspos)], taskspos := s.taskspos + 1, taker := s.taker + [w])
  }

  lemma FetchOne(s: State, t: State, wakes: nat, rewinds: nat, w: nat)
    requires Leads(s, t, wakes, rewinds) && t.owner.Free? && w < |t.workers| && MayLock(t.workers[w]) && t.taskspos < |t.tasks|
    ensures Leads(s, Fetch(t, w), wakes, rewinds)
  {
    var k := t.taskspos;
    LockOne(s, t, wakes, rewinds, w);
    HoldOn(s, t, wakes, rewinds, w, Checking, Comparing(k));
    HoldOn(s, t, wakes, rewinds, w, Comparing(k), Taking);
    HoldOn(s, t, wakes, rewinds, w, Taking, Taken(k));
    HoldOn(s, t, wakes, rewinds, w, Taken(k), Advancing(k, k));
    Do(s, Hold(t, w, Advancing(k, k)), wakes, rewinds, Turn(w));
    var advanced := t.(taskspos := k + 1, taker := t.taker + [w]);
    assert t.workers[w := Advancing(k, k)][w := Advanced(k)] == t.workers[w := Advanced(k)];
    Do(s, Hold(advanced, w, Advanced(k)), wakes, rewinds, Turn(w));
    assert t.workers[w := Advanced(k)][w := Fetched(k)] == t.workers[w := Fetched(k)];
  }

  // The first i workers but worker a are waiting.
  function ParkedBut(workers: seq<WorkerPc>, a: nat, i: nat): (r: seq<WorkerPc>)
    ensures |r| == |workers|
  {
    seq(|workers|, j requires 0 <= j < |workers| => if j < i && j != a then Parked else workers[j])
  }

  function Others(a: nat, i: nat): nat {
    if a < i then i - 1 else i
  }

  function OthersParked(s: State, a: nat, i: nat): State {
    s.(workers := ParkedBut(s.workers, a, i), endCount := s.endCount + Others(a, i),
       main := if Others(a, i) > 0 && s.main.RunWaiting? then RunWoken else s.main)
  }

  lemma {:induction false} ParkOthers(s: State, t: State, wakes: nat, a: nat, i: nat)
    requires Leads(s, t, wakes, 0) && t.owner.Free? && i <= |t.workers| && t.taskspos == |t.tasks|
    requires forall w :: 0 <= w < |t.workers| && w != a ==> MayLock(t.workers[w])
    ensures Leads(s, OthersParked(t, a, i), wakes, 0)
  {
    if i == 0 {
      assert ParkedBut(t.workers, a, 0) == t.workers;
    } else {
      ParkOthers(s, t, wakes, a, i - 1);
      var before := OthersParked(t, a, i - 1);
      if i - 1 == a {
        assert ParkedBut(t.workers, a, i) == ParkedBut(t.workers, a, i - 1);
      } else {
        assert before.workers[i - 1] == t.workers[i - 1];
        ParkOne(s, before, wakes, 0, i - 1);
        assert ParkedBut(t.workers, a, i) == before.workers[i - 1 := Parked];
      }
    }
  }

  // The main thread has broadcast and waits, and only worker a may still be busy.
  ghost predicate Settled(s: State, a: nat) {
    && s.n == |s.workers| >= 2 && a < s.n && s.owner.Free? && s.main.RunWaiting? && s.taskspos == |s.tasks|
    && forall w :: 0 <= w < s.n && w != a ==> MayLock(s.workers[w])
  }

  // Once all others have been counted, and somebody twice, the run ends.
  lemma EndEarly(s: State, t: State, wakes: nat, a: nat)
    requires Leads(s, t, wakes, 0) && Settled(t, a) && t.endCount >= 1
    ensures Leads(s, OthersParked(t, a, t.n).(main := RunDone), wakes, 0)
  {
    ParkOthers(s, t, wakes, a, t.n);
    EndCounted(s, OthersParked(t, a, t.n), wakes);
  }

  lemma EndCounted(s: State, t: State, wakes: nat)
    requires Leads(s, t, wakes, 0) && t.owner.Free? && t.main.RunWoken? && t.endCount >= t.n
    ensures Leads(s, t.(main := RunDone), wakes, 0)
  {
    Do(s, t, wakes, 0, MainRelock);
    var testing := t.(main := RunTesting, owner := Main);
    assert Apply(t, MainRelock) == testing;
    Do(s, testing, wakes, 0, MainFinish);
    assert Apply(testing, MainFinish) == t.(main := RunDone);
  }

  // The main thread's part of the start of a run.
  lemma StartWaiting(s: State, t: State, wakes: nat)
    requires Leads(s, t, wakes, 0) && t.main.RunStart? && t.owner.Free? && t.endCount < t.n
    ensures Leads(s, t.(main := RunWaiting, workers := WakeAll(t.workers)), wakes, 0)
  {
    Do(s, t, wakes, 0, MainLock);
    var locked := t.(main := RunLocked, owner := Main);
    assert Apply(t, MainLock) == locked;
    Do(s, locked, wakes, 0, Broadcast);
    var testing := locked.(main := RunTesting, workers := WakeAll(t.workers));
    assert Apply(locked, Broadcast) == testing;
    Do(s, testing, wakes, 0, MainWait);
    assert Apply(testing, MainWait) == t.(main := RunWaiting, workers := WakeAll(t.workers));
  }

  // ---- Exactly when a run waits for its tasks ----

  // All runs of all pools of n counted workers with at most so many waits that end without a signal.
  ghost predicate RunsWait(n: nat, wakes: nat) {
    forall s: State, steps :: Init(s) && s.n == n && CanRun(s, steps) && Wakes(steps) <= wakes ==>
      (After(s, steps).main.RunDone? ==> AllRan(After(s, steps)))
  }

  /** workerpool_run waits for all tasks if and only if no worker's wait ends without a signal: one such wait is enough
    for pools of every size. */
  lemma RunsWaitIff(n: nat, wakes: nat)
    requires n >= 2
    ensures RunsWait(n, wakes) <==> wakes == 0
  {
    if wakes == 0 {
      forall s: State, steps | Init(s) && s.n == n && CanRun(s, steps) && Wakes(steps) <= wakes && After(s, steps).main.RunDone?
        ensures AllRan(After(s, steps))
      {
        RunIsSafe(s, steps);
      }
    } else {
      var s, t := WokenTwice(n);
      var steps :| LeadsBy(s, t, steps, 1, 0);
      assert !AllRan(After(s, steps));
    }
  }

  // Worker 0 runs the only task while worker 1 waits twice and is counted twice.
  lemma WokenTwice(n: nat) returns (s: State, t: State)
    requires n >= 2
    ensures Init(s) && s.n == n && Leads(s, t, 1, 0) && t.main.RunDone? && !AllRan(t)
  {
    s := State(n, [], 0, 0, Free, Idle, Repeated(Parked, n), [], [], 0);
    var waiting := TaskTaken(s);
    ParkOthers(s, waiting, 0, 0, n);
    var parked := OthersParked(waiting, 0, n);
    Do(s, parked, 0, 0, SpuriousWake(1));
    var woken := SetWorker(parked, 1, Woken);
    ParkOne(s, woken, 1, 0, 1);
    EndCounted(s, Park(woken, 1), 1);
    t := Park(woken, 1).(main := RunDone);
    assert t.ran[0] == 0;
  }

  // One task, fetched by worker 0 of a pool of waiting workers.
  lemma TaskTaken(s: State) returns (t: State)
    requires Init(s) && s.n >= 2 && s.owner.Free?
    ensures Leads(s, t, 0, 0) && Settled(t, 0) && t.n == s.n && t.endCount == 0 && t.ran == [0] && |t.tasks| == 1
  {
    LeadsNowhere(s);
    Do(s, s, 0, 0, AddTask(0));
    var queued := Apply(s, AddTask(0));
    Do(s, queued, 0, 0, BeginRun);
    var started := Apply(queued, BeginRun);
    StartWaiting(s, started, 0);
    var waiting := started.(main := RunWaiting, workers := WakeAll(started.workers));
    FetchOne(s, waiting, 0, 0, 0);
    t := Fetch(waiting, 0);
  }

  // ---- Exactly when the first run of a new pool waits for its tasks ----

  ghost predicate FirstRunWaits(s: State) {
    forall steps :: CanRun(s, steps) && Wakes(steps) == 0 && Rewinds(steps) == 0 ==>
      (After(s, steps).main.RunDone? ==> AllRan(After(s, steps)))
  }

  /** The first run of a new pool waits for all tasks if and only if every worker has been counted when the first task is
    added: one that has found the queue empty before may be counted after end_count has been reset, and once more. */
  lemma FirstRunWaitsIff(s: State)
    requires Fresh(s) && s.n >= 2
    ensures FirstRunWaits(s) <==> CountedCount(s) == s.n
  {
    if CountedCount(s) == s.n {
      AllCounted(s);
      forall steps | CanRun(s, steps) && Wakes(steps) == 0 && Rewinds(steps) == 0 && After(s, steps).main.RunDone?
        ensures AllRan(After(s, steps))
      {
        RunIsSafe(s, steps);
      }
    } else {
      var t := CountedEarly(s);
      FetchOne(s, t, 0, 0, 0);
      t := EndOrEnded(s, Fetch(t, 0));
      var steps :| LeadsBy(s, t, steps, 0, 0);
      assert !AllRan(After(s, steps));
    }
  }

  lemma AllCounted(s: State)
    requires Fresh(s) && CountedCount(s) == s.n
    ensures Init(s)
  {
    CountBounds(s.workers, AreCounted());
    forall w | 0 <= w < s.n ensures IsCounted(s.workers[w]) {
      assert AreCounted()(s.workers[w]);
    }
  }

  lemma OneUncounted(s: State) returns (b: nat)
    requires Fresh(s) && CountedCount(s) < s.n
    ensures b < s.n && !IsCounted(s.workers[b])
  {
    CountBounds(s.workers, AreCounted());
    b :| b < s.n && !AreCounted()(s.workers[b]);
  }

  // How far the holder of the mutex is from having read end_count.
  function Distance(pc: WorkerPc): nat {
    match pc
    case Counted => 6
    case Announced => 5
    case Checking => 3
    case Comparing(_) => 2
    case Empty => 1
    case Counting(_) => 0
    case _ => 4
  }

  lemma StartOn(s: State, b: nat)
    requires Fresh(s) && b < s.n && !s.workers[b].Counting?
    requires if s.owner.Worker? then b == s.owner.w else !IsCounted(s.workers[b])
    ensures CanTurn(s, b)
    ensures var s' := TakeTurn(s, b);
            Fresh(s') && s'.n == s.n && CountedCount(s') == CountedCount(s) && Distance(Holder(s')) < Distance(Holder(s))
  {
    CountsAfter(s, b, TakeTurn(s, b).workers[b]);
    MutexMoving(s, b);
  }

  // Before the first task is added, a worker that has not been counted comes to where it has read end_count.
  lemma {:induction false} BeforeCounting(s: State, t: State) returns (u: State, b: nat)
    requires Leads(s, t, 0, 0) && Fresh(t) && t.n == s.n && CountedCount(t) < t.n
    ensures Leads(s, u, 0, 0) && Fresh(u) && u.n == s.n && b < u.n && u.workers[b].Counting?
    decreases Distance(Holder(t))
  {
    if t.owner.Worker? {
      b := t.owner.w;
    } else {
      b := OneUncounted(t);
    }
    if t.workers[b].Counting? {
      u := t;
    } else {
      StartOn(t, b);
      Do(s, t, 0, 0, Turn(b));
      u, b := BeforeCounting(s, TakeTurn(t, b));
    }
  }

  // The broadcast is over, the one task is there for anybody and somebody will be counted twice.
  ghost predicate Miscounted(s: State) {
    && s.n == |s.workers| >= 2 && s.owner.Free? && (s.main.RunDone? || (s.main.RunWaiting? && s.endCount >= 1))
    && |s.tasks| == 1 == |s.ran| && s.tasks[0].Job? && s.ran[0] == 0 && s.taskspos == 0
    && forall w :: 0 <= w < s.n ==> MayLock(s.workers[w])
  }

  // Worker b has found the queue empty; a task is added, end_count is reset, and then b is counted.
  lemma CountedEarly(s: State) returns (t: State)
    requires Fresh(s) && s.n >= 2 && CountedCount(s) != s.n
    ensures Leads(s, t, 0, 0) && Miscounted(t)
  {
    CountBounds(s.workers, AreCounted());
    LeadsNowhere(s);
    var u, b := BeforeCounting(s, s);
    Do(s, u, 0, 0, AddTask(0));
    Do(s, Apply(u, AddTask(0)), 0, 0, BeginRun);
    var started := Apply(Apply(u, AddTask(0)), BeginRun);
    var before := started.(owner := Free);
    assert before.workers[b := u.workers[b]] == started.workers;
    ParkCounting(s, before, 0, 0, b, u.workers[b].count);
    t := StartTesting(s, Park(before.(endCount := u.workers[b].count), b));
  }

  // The main thread's part of the start of a run.
  lemma StartTesting(s: State, t: State) returns (u: State)
    requires Leads(s, t, 0, 0) && t.main.RunStart? && t.owner.Free? && t.endCount >= 1
    ensures Leads(s, u, 0, 0) && (u.main.RunDone? || (u.main.RunWaiting? && u.endCount >= 1))
    ensures u == t.(main := u.main, workers := WakeAll(t.workers))
  {
    if t.endCount < t.n {
      StartWaiting(s, t, 0);
      u := t.(main := RunWaiting, workers := WakeAll(t.workers));
    } else {
      Do(s, t, 0, 0, MainLock);
      var locked := t.(main := RunLocked, owner := Main);
      Do(s, locked, 0, 0, Broadcast);
      var testing := locked.(main := RunTesting, workers := WakeAll(t.workers));
      Do(s, testing, 0, 0, MainFinish);
      u := t.(main := RunDone, workers := WakeAll(t.workers));
    }
  }

  // The run ends while worker 0 is still busy, or has ended.
  lemma EndOrEnded(s: State, t: State) returns (u: State)
    requires Leads(s, t, 0, 0) && t.n == |t.workers| >= 2 && t.owner.Free? && t.taskspos == |t.tasks|
    requires t.main.RunDone? || (t.main.RunWaiting? && t.endCount >= 1)
    requires forall w :: 0 < w < t.n ==> MayLock(t.workers[w])
    ensures Leads(s, u, 0, 0) && u.main.RunDone? && u.owner.Free? && |u.workers| >= 2 && u.workers[0] == t.workers[0]
    ensures u.tasks == t.tasks && u.ran == t.ran
  {
    u := t;
    if t.main.RunWaiting? {
      EndEarly(s, t, 0, 0);
      u := OthersParked(t, 0, t.n).(main := RunDone);
    }
  }

  // ---- Exactly when no task of a new pool runs twice ----

  ghost predicate NoTaskTwice(s: State) {
    forall steps :: CanRun(s, steps) && Wakes(steps) == 0 ==> AtMostOnce(After(s, steps))
  }

  /** No task of a new pool runs twice if and only if every worker has been counted when the first task is added:
    otherwise a worker may still be awake when taskspos is reset and the queue is not yet empty. */
  lemma NoTaskTwiceIff(s: State)
    requires Fresh(s) && s.n >= 2
    ensures NoTaskTwice(s) <==> CountedCount(s) == s.n
  {
    if CountedCount(s) == s.n {
      AllCounted(s);
      forall steps | CanRun(s, steps) && Wakes(steps) == 0
        ensures AtMostOnce(After(s, steps))
      {
        RunIsSafe(s, steps);
      }
    } else {
      var t := CountedEarly(s);
      t := RunOne(s, t, 0);
      t := EndOrEnded(s, t);
      t := RunAgain(s, t);
      var steps :| LeadsBy(s, t, steps, 0, 1);
      assert !AtMostOnce(After(s, steps));
    }
  }

  // Worker 0 runs the only task and comes back to the top of the loop.
  lemma RunOne(s: State, t: State, rewinds: nat) returns (u: State)
    requires Leads(s, t, 0, rewinds) && t.owner.Free? && 0 < |t.workers| && MayLock(t.workers[0])
    requires |t.tasks| == 1 == |t.ran| && t.tasks[0].Job? && t.taskspos == 0
    ensures Leads(s, u, 0, rewinds) && u.workers == t.workers[0 := WantLock] && u.taskspos == 1
    ensures u == t.(workers := u.workers, taskspos := 1, taker := u.taker, ran := [t.ran[0] + 1])
  {
    FetchOne(s, t, 0, rewinds, 0);
    var taken := Fetch(t, 0);
    Do(s, taken, 0, rewinds, Turn(0));
    u := TakeTurn(taken, 0);
    assert t.workers[0 := Fetched(0)][0 := WantLock] == t.workers[0 := WantLock];
    assert t.ran[0 := t.ran[0] + 1] == [t.ran[0] + 1];
  }

  // Between the reset of taskspos and the emptying of the queue it takes the task once more.
  lemma RunAgain(s: State, t: State) returns (u: State)
    requires Leads(s, t, 0, 0) && t.main.RunDone? && t.owner.Free? && 0 < |t.workers| && t.workers[0].WantLock?
    requires |t.tasks| == 1 == |t.ran| && t.tasks[0].Job? && t.ran[0] == 1
    ensures Leads(s, u, 0, 1) && !AtMostOnce(u)
  {
    Do(s, t, 0, 0, Rewind);
    u := RunOne(s, Apply(t, Rewind), 1);
    assert u.ran[0] == 2;
  }
}
