/** The cached thread pool: a one-slot hand-off guarded by a lock and two condition variables. Every event is what
    one thread does while it holds the lock; runs are all their interleavings. */
module ThreadPool {
  import opened Common

  const CORE_POOL_SIZE: nat := 3

  /** Tasks are told apart by number. */
  type Task = nat

  /** Between critical sections, inside the wait on `send_task`, or running the task taken as number `job`. */
  datatype Mode = Free | Waiting | Busy(job: nat)

  datatype Worker = Worker(core: bool, mode: Mode)

  /** `blocked` holds the callers inside the wait on `recv_task`, with whether they have been signalled.
      `submitted`, `taken`, `dropped` and `finished` record what happened. */
  datatype State = State(
    idle: int, total: int, pending: Option<Task>, workers: map<nat, Worker>, blocked: map<nat, bool>,
    submitted: seq<Task>, taken: seq<Task>, dropped: seq<Task>, finished: set<nat>)

  datatype Event =
    | Enter(w: nat, signalled: nat)   // a worker comes around the loop
    | Wake(w: nat, signalled: nat)    // its wait on `send_task` ends, by a signal or not
    | Timeout(w: nat)                 // the timed wait of a non-core worker ends
    | Finish(w: nat)                  // its task returns
    | Exec(p: nat, task: Task, w: nat) // a caller enters `exec_task`; `w` names a thread it may start
    | Return(p: nat)                  // a signalled caller leaves `exec_task`
    | Spurious(p: nat)                // a caller leaves without a signal

  const START := State(0, 0, None, map[], map[], [], [], [], {})

  /** `pthread_cond_signal(&recv_task)`: one waiting caller, if there is one. */
  predicate CanSignal(s: State, p: nat) {
    (exists q :: q in s.blocked && !s.blocked[q]) ==> p in s.blocked && !s.blocked[p]
  }

  function Signal(s: State, p: nat): State {
    if p in s.blocked then s.(blocked := s.blocked[p := true]) else s
  }

  predicate Enabled(s: State, e: Event) {
    match e
    case Enter(w, p) => w in s.workers && s.workers[w].mode == Free && (s.pending.Some? ==> CanSignal(s, p))
    case Wake(w, p) => w in s.workers && s.workers[w].mode == Waiting && (s.pending.Some? ==> CanSignal(s, p))
    case Timeout(w) => w in s.workers && s.workers[w].mode == Waiting && !s.workers[w].core
    case Finish(w) => w in s.workers && s.workers[w].mode.Busy?
    case Exec(p, _, w) => p !in s.blocked && w !in s.workers
    case Return(p) => p in s.blocked && s.blocked[p]
    case Spurious(p) => p in s.blocked && !s.blocked[p]
  }

  /** The worker takes the pending task and signals; without one it goes around the loop again. */
  function Take(s: State, w: nat, p: nat): State
    requires w in s.workers
  {
    var worker := s.workers[w];
    match s.pending
    case None => s.(workers := s.workers[w := worker.(mode := Free)])
    case Some(task) =>
      Signal(s.(pending := None, taken := s.taken + [task],
                workers := s.workers[w := worker.(mode := Busy(|s.taken|))]), p)
  }

  function Apply(s: State, e: Event): State
    requires Enabled(s, e)
  {
    match e
    case Enter(w, p) =>
      if s.pending.Some? then Take(s, w, p)
      else s.(idle := s.idle + 1, workers := s.workers[w := s.workers[w].(mode := Waiting)])
    case Wake(w, p) => Take(s, w, p).(idle := s.idle - 1)
    case Timeout(w) => s.(idle := s.idle - 1, total := s.total - 1, workers := s.workers - {w})
    case Finish(w) =>
      s.(workers := s.workers[w := s.workers[w].(mode := Free)], finished := s.finished + {s.workers[w].mode.job})
    case Exec(p, task, w) =>
      var s := s.(pending := Some(task), submitted := s.submitted + [task], blocked := s.blocked[p := false],
                  dropped := s.dropped + PendingList(s));
      if s.idle == 0 then s.(total := s.total + 1, workers := s.workers[w := Worker(s.total + 1 <= CORE_POOL_SIZE, Free)])
      else s
    case Return(p) => s.(blocked := s.blocked - {p})
    case Spurious(p) => s.(blocked := s.blocked - {p})
  }

  ghost predicate Possible(run: seq<Event>)
    decreases |run|, 0
  {
    run == [] || (Possible(run[..|run| - 1]) && Enabled(After(run[..|run| - 1]), run[|run| - 1]))
  }

  ghost function After(run: seq<Event>): State
    requires Possible(run)
    decreases |run|, 1
  {
    if run == [] then START else Apply(After(run[..|run| - 1]), run[|run| - 1])
  }

  // ----- counting threads -----

  function WaitingIn(workers: map<nat, Worker>): set<nat> {
    set w | w in workers && workers[w].mode == Waiting
  }

  function CoreIn(workers: map<nat, Worker>): set<nat> {
    set w | w in workers && workers[w].core
  }

  function Min(a: int, b: int): int { if a < b then a else b }

  /** `idle_threads` counts the threads in the wait region, `total_threads` all threads, and the threads that
      never end are the first three. */
  ghost predicate Counted(s: State) {
    && s.idle == |WaitingIn(s.workers)| && s.total == |s.workers.Keys|
    && |CoreIn(s.workers)| == Min(s.total, CORE_POOL_SIZE)
  }

  lemma SetMode(workers: map<nat, Worker>, w: nat, mode: Mode)
    requires w in workers
    ensures var after := workers[w := workers[w].(mode := mode)];
            && CoreIn(after) == CoreIn(workers) && after.Keys == workers.Keys
            && WaitingIn(after) == if mode == Waiting then WaitingIn(workers) + {w} else WaitingIn(workers) - {w}
  {
  }

  lemma CountedKept(s: State, e: Event)
    requires Counted(s) && Enabled(s, e)
    ensures Counted(Apply(s, e))
  {
    hide Counted, WaitingIn, CoreIn;
    match e {
      case Enter(w, p) => EnterCounts(s, w, p);
      case Wake(w, p) => WakeCounts(s, w, p);
      case Timeout(w) => TimeoutCounts(s, w);
      case Finish(w) => FinishCounts(s, w);
      case Exec(p, task, w) => ExecCounts(s, p, task, w);
      case Return(p) => SameCounts(s, Apply(s, e));
      case Spurious(p) => SameCounts(s, Apply(s, e));
    }
  }

  lemma SameCounts(s: State, t: State)
    requires Counted(s) && t.workers == s.workers && t.idle == s.idle && t.total == s.total
    ensures Counted(t)
  {
  }

  lemma EnterCounts(s: State, w: nat, p: nat)
    requires Counted(s) && Enabled(s, Enter(w, p))
    ensures Counted(Apply(s, Enter(w, p)))
  {
    SetMode(s.workers, w, Waiting);
    SetMode(s.workers, w, Busy(|s.taken|));
    assert w !in WaitingIn(s.workers) && WaitingIn(s.workers) - {w} == WaitingIn(s.workers);
    hide WaitingIn, CoreIn;
  }

  lemma WakeCounts(s: State, w: nat, p: nat)
    requires Counted(s) && Enabled(s, Wake(w, p))
    ensures Counted(Apply(s, Wake(w, p)))
  {
    SetMode(s.workers, w, Free);
    SetMode(s.workers, w, Busy(|s.taken|));
    assert w in WaitingIn(s.workers);
    hide WaitingIn, CoreIn;
  }

  lemma TimeoutCounts(s: State, w: nat)
    requires Counted(s) && Enabled(s, Timeout(w))
    ensures Counted(Apply(s, Timeout(w)))
  {
    var after := s.workers - {w};
    assert WaitingIn(after) == WaitingIn(s.workers) - {w} && CoreIn(after) == CoreIn(s.workers);
    assert w in WaitingIn(s.workers) && after.Keys == s.workers.Keys - {w};
    CoreAtMost(s.workers, w);
    hide WaitingIn, CoreIn;
  }

  lemma FinishCounts(s: State, w: nat)
    requires Counted(s) && Enabled(s, Finish(w))
    ensures Counted(Apply(s, Finish(w)))
  {
    SetMode(s.workers, w, Free);
    assert w !in WaitingIn(s.workers) && WaitingIn(s.workers) - {w} == WaitingIn(s.workers);
    hide WaitingIn, CoreIn;
  }

  lemma ExecCounts(s: State, p: nat, task: Task, w: nat)
    requires Counted(s) && Enabled(s, Exec(p, task, w))
    ensures Counted(Apply(s, Exec(p, task, w)))
  {
    var core := s.total + 1 <= CORE_POOL_SIZE;
    var t := Apply(s, Exec(p, task, w));
    if s.idle == 0 {
      AddedWorker(s.workers, w, core);
      assert t.workers == s.workers[w := Worker(core, Free)];
    } else {
      SameCounts(s, t);
    }
    hide WaitingIn, CoreIn;
  }

  lemma AddedWorker(workers: map<nat, Worker>, w: nat, core: bool)
    requires w !in workers
    ensures var after := workers[w := Worker(core, Free)];
            && WaitingIn(after) == WaitingIn(workers) && |after.Keys| == |workers.Keys| + 1
            && |CoreIn(after)| == |CoreIn(workers)| + if core then 1 else 0
  {
    var after := workers[w := Worker(core, Free)];
    assert after.Keys == workers.Keys + {w} && w !in workers.Keys;
    assert WaitingIn(after) == WaitingIn(workers);
    assert w !in CoreIn(workers) && CoreIn(after) == if core then CoreIn(workers) + {w} else CoreIn(workers);
  }

  /** A thread that may end is not needed for the core count. */
  lemma CoreAtMost(workers: map<nat, Worker>, w: nat)
    requires w in workers && !workers[w].core
    ensures |CoreIn(workers)| <= |workers.Keys| - 1
  {
    var others := workers.Keys - {w};
    assert CoreIn(workers) <= others;
    SubsetSize(CoreIn(workers), others);
  }

  lemma {:induction false} SubsetSize(a: set<nat>, b: set<nat>)
    requires a <= b
    ensures |a| <= |b|
    decreases b
  {
    if b == {} {
    } else {
      var x :| x in b;
      SubsetSize(a - {x}, b - {x});
      if x !in a { assert a - {x} == a; }
    }
  }

  // ----- tasks -----

  predicate IsJob(s: State, w: nat, job: nat) { w in s.workers && s.workers[w].mode == Busy(job) }

  /** Every taken task is finished or run by exactly one worker. */
  ghost predicate RunOnce(s: State) {
    && (forall j | 0 <= j < |s.taken| :: j in s.finished || exists w :: IsJob(s, w, j))
    && (forall j | j in s.finished :: j < |s.taken|)
    && (forall w: nat, j: nat | IsJob(s, w, j) :: j < |s.taken| && j !in s.finished)
    && (forall v: nat, w: nat, j: nat | IsJob(s, v, j) && IsJob(s, w, j) :: v == w)
  }

  function PendingList(s: State): seq<Task> {
    match s.pending case Some(task) => [task] case None => []
  }

  /** Nothing appears or disappears: submitted tasks are taken, dropped or pending. */
  ghost predicate Conserved(s: State) {
    multiset(s.submitted) == multiset(s.taken) + multiset(s.dropped) + multiset(PendingList(s))
  }

  lemma RunOnceKept(s: State, e: Event)
    requires RunOnce(s) && Enabled(s, e)
    ensures RunOnce(Apply(s, e))
  {
    var t := Apply(s, e);
    match e {
      case Enter(w, p) =>
        JobsMove(s, t, w);
      case Wake(w, p) =>
        JobsMove(s, t, w);
      case Timeout(w) =>
        JobsMove(s, t, w);
      case Finish(w) =>
        FinishMoves(s, t, w);
      case Exec(p, task, w) =>
        JobsMove(s, t, w);
      case Return(p) =>
        JobsMove(s, t, 0);
      case Spurious(p) =>
        JobsMove(s, t, 0);
    }
  }

  /** One worker changes, and gets the new job if there is one. */
  lemma JobsMove(s: State, t: State, w: nat)
    requires RunOnce(s) && t.finished == s.finished
    requires forall v, j :: v != w ==> (IsJob(t, v, j) <==> IsJob(s, v, j))
    requires forall j :: !IsJob(s, w, j) || (t.taken == s.taken && IsJob(t, w, j))
    requires || (t.taken == s.taken && forall j :: IsJob(t, w, j) ==> IsJob(s, w, j))
             || (|t.taken| == |s.taken| + 1 && forall j :: IsJob(t, w, j) <==> j == |s.taken|)
    ensures RunOnce(t)
  {
    forall j | 0 <= j < |t.taken| ensures j in t.finished || exists v :: IsJob(t, v, j) {
      if j < |s.taken| && j !in s.finished {
        var v :| IsJob(s, v, j);
        assert IsJob(t, v, j);
      } else if j == |s.taken| {
        assert IsJob(t, w, j);
      }
    }
  }

  lemma FinishMoves(s: State, t: State, w: nat)
    requires RunOnce(s) && Enabled(s, Finish(w)) && t == Apply(s, Finish(w))
    ensures RunOnce(t)
  {
    var job := s.workers[w].mode.job;
    assert IsJob(s, w, job);
    forall v, j ensures IsJob(t, v, j) <==> v != w && IsJob(s, v, j) {
    }
    forall j | 0 <= j < |t.taken| ensures j in t.finished || exists v :: IsJob(t, v, j) {
      if j !in t.finished {
        var v :| IsJob(s, v, j);
        assert IsJob(t, v, j);
      }
    }
  }

  lemma ConservedKept(s: State, e: Event)
    requires Conserved(s) && Enabled(s, e)
    ensures Conserved(Apply(s, e))
  {
    match e {
      case Enter(w, p) => TakeConserves(s, w, p);
      case Wake(w, p) => TakeConserves(s, w, p);
      case Exec(p, task, w) => ExecConserves(s, Apply(s, e), task);
      case _ =>
    }
  }

  lemma TakeConserves(s: State, w: nat, p: nat)
    requires Conserved(s) && w in s.workers
    ensures Conserved(Take(s, w, p))
  {
    var t := Take(s, w, p);
    if s.pending.Some? {
      assert multiset(t.taken) == multiset(s.taken) + multiset([s.pending.value]);
    }
  }

  lemma ExecConserves(s: State, t: State, task: Task)
    requires Conserved(s) && t.submitted == s.submitted + [task] && t.pending == Some(task) && t.taken == s.taken
    requires t.dropped == s.dropped + PendingList(s)
    ensures Conserved(t)
  {
    assert multiset(t.submitted) == multiset(s.submitted) + multiset([task]);
    assert multiset(t.dropped) == multiset(s.dropped) + multiset(PendingList(s));
  }

  /** In every reachable state of every run, with any number of callers. */
  lemma {:induction false} EveryRun(run: seq<Event>)
    requires Possible(run)
    ensures Counted(After(run)) && RunOnce(After(run)) && Conserved(After(run))
  {
    hide Counted, RunOnce, Conserved, Apply, Enabled;
    if run == [] {
      AtStart();
    } else {
      var init := run[..|run| - 1];
      EveryRun(init);
      CountedKept(After(init), run[|run| - 1]);
      RunOnceKept(After(init), run[|run| - 1]);
      ConservedKept(After(init), run[|run| - 1]);
    }
  }

  lemma AtStart()
    ensures Counted(START) && RunOnce(START) && Conserved(START) && Delivered(START)
  {
    assert WaitingIn(map[]) == {} && CoreIn(map[]) == {};
  }

  // ----- one caller at a time -----

  /** Calls do not overlap and `recv_task` has no spurious wakeup. */
  ghost predicate Orderly(run: seq<Event>)
    requires Possible(run)
  {
    run == [] ||
    var init, e := run[..|run| - 1], run[|run| - 1];
    Orderly(init) && !e.Spurious? && (e.Exec? ==> After(init).blocked == map[])
  }

  /** Tasks are taken in the order they were submitted; a caller is signalled only once its task is taken. */
  ghost predicate Delivered(s: State) {
    && s.submitted == s.taken + PendingList(s) && s.dropped == []
    && (forall p, q | p in s.blocked && q in s.blocked :: p == q)
    && (s.pending.Some? ==> s.blocked != map[])
    && (forall p | p in s.blocked :: s.blocked[p] ==> s.pending.None?)
  }

  lemma DeliveredKept(s: State, e: Event)
    requires Delivered(s) && Enabled(s, e) && !e.Spurious? && (e.Exec? ==> s.blocked == map[])
    ensures Delivered(Apply(s, e))
  {
    if e.Return? {
      assert Apply(s, e).blocked == map[];
    }
  }

  /** Over every orderly run each task is taken exactly once, in order, and before its call returns. */
  lemma {:induction false} TakenBeforeReturn(run: seq<Event>)
    requires Possible(run) && Orderly(run)
    ensures Delivered(After(run))
    ensures After(run).blocked == map[] ==> After(run).taken == After(run).submitted
  {
    hide Delivered, Apply, Enabled;
    if run == [] {
      AtStart();
    } else {
      var init := run[..|run| - 1];
      TakenBeforeReturn(init);
      DeliveredKept(After(init), run[|run| - 1]);
    }
    NoneBlocked(After(run));
  }

  lemma NoneBlocked(s: State)
    requires Delivered(s)
    ensures s.blocked == map[] ==> s.taken == s.submitted
  {
    assert s.taken + [] == s.taken;
  }

  // ----- what the two conditions are for -----

  lemma OneMore(run: seq<Event>, e: Event)
    requires Possible(run) && Enabled(After(run), e)
    ensures Possible(run + [e]) && After(run + [e]) == Apply(After(run), e)
    ensures Orderly(run + [e]) <==> Orderly(run) && !e.Spurious? && (e.Exec? ==> After(run).blocked == map[])
  {
    hide Enabled, Apply;
    var more := run + [e];
    assert more[..|more| - 1] == run;
  }

  /** With two overlapping calls a task can be lost: the second caller finds the first task still pending. */
  lemma OverlapLosesTask() returns (run: seq<Event>)
    ensures Possible(run) && !Orderly(run) && (forall i | 0 <= i < |run| :: !run[i].Spurious?)
    ensures After(run).submitted == [7, 8] && After(run).taken == [8] && After(run).pending == None
  {
    hide Possible, After, Orderly;
    run := First(Exec(0, 7, 0));
    OneMore(run, Exec(1, 8, 1));
    run := run + [Exec(1, 8, 1)];
    OneMore(run, Enter(0, 1));
    run := run + [Enter(0, 1)];
    OneMore(run, Return(1));
    run := run + [Return(1)];
  }

  /** With a spurious wakeup a single caller can lose a task. */
  lemma SpuriousLosesTask() returns (run: seq<Event>)
    ensures Possible(run) && !Orderly(run)
    ensures After(run).submitted == [7, 8] && After(run).taken == [8] && After(run).pending == None
  {
    hide Possible, After, Orderly;
    run := First(Exec(0, 7, 0));
    OneMore(run, Spurious(0));
    run := run + [Spurious(0)];
    OneMore(run, Exec(0, 8, 1));
    run := run + [Exec(0, 8, 1)];
    OneMore(run, Enter(0, 0));
    run := run + [Enter(0, 0)];
  }

  lemma First(e: Event) returns (run: seq<Event>)
    requires Enabled(START, e) && !e.Spurious?
    ensures run == [e] && Possible(run) && Orderly(run) && After(run) == Apply(START, e)
  {
    hide Enabled, Apply;
    run := [];
    OneMore(run, e);
    assert [] + [e] == [e];
    run := run + [e];
  }

  /** No call swapped its task in while another was pending. */
  ghost predicate NeverOverwrites(run: seq<Event>)
    requires Possible(run)
  {
    run == [] ||
    var init, e := run[..|run| - 1], run[|run| - 1];
    NeverOverwrites(init) && (e.Exec? ==> After(init).pending == None)
  }

  lemma DroppedWhen(s: State, e: Event)
    requires Enabled(s, e)
    ensures Apply(s, e).dropped == [] <==> s.dropped == [] && (e.Exec? ==> s.pending == None)
  {
  }

  lemma {:induction false} DroppedIff(run: seq<Event>)
    requires Possible(run)
    ensures NeverOverwrites(run) <==> After(run).dropped == []
  {
    hide Enabled, Apply;
    if run == [] {
    } else {
      DroppedIff(run[..|run| - 1]);
      DroppedWhen(After(run[..|run| - 1]), run[|run| - 1]);
    }
  }

  /** Over every run, all submitted tasks are taken or pending exactly if no call overwrote a pending one. */
  lemma LossIsOverwriting(run: seq<Event>)
    requires Possible(run)
    ensures NeverOverwrites(run)
            <==> multiset(After(run).submitted) == multiset(After(run).taken) + multiset(PendingList(After(run)))
  {
    hide Conserved, After, NeverOverwrites, Possible, Counted, RunOnce, PendingList;
    EveryRun(run);
    DroppedIff(run);
    NothingDropped(After(run));
  }

  lemma NothingDropped(s: State)
    requires Conserved(s)
    ensures s.dropped == [] <==> multiset(s.submitted) == multiset(s.taken) + multiset(PendingList(s))
  {
    if s.dropped != [] {
      assert s.dropped[0] in multiset(s.dropped);
    }
  }
}
