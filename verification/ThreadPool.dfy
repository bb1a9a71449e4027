/**
  The thread pool as a transition system: workers share one task list, one mutex and one
  condition variable. Every critical section is one step; spurious wakeups are allowed.
 */
module ThreadPools {
  import opened CondVars
  import opened Wrappers

  // `ready` workers contend for the mutex; `busy` maps a worker to the task it runs; the two sequences are the history.
  datatype State<+Task> = State(
    tasks: seq<Task>,
    closed: bool,
    ready: set<Tid>,
    cond: CondVar,
    busy: map<Tid, Task>,
    exited: set<Tid>,
    pushed: seq<Task>,
    started: seq<Task>)

  datatype Event<+Task> =
    | Push(task: Task, pick: Tid)
    | Section(t: Tid)   // a worker takes the mutex and runs until it waits, takes a task or exits
    | Finish(t: Tid)    // a worker's task returns or throws
    | Spurious(t: Tid)
    | Close

  // The pool just after `Start`.
  function Init<Task>(workers: set<Tid>): State<Task> {
    State([], false, workers, CondVar({}, {}), map[], {}, [], [])
  }

  ghost predicate Enabled<Task>(s: State<Task>, e: Event<Task>) {
    match e
    case Push(_, pick) => s.cond.CanPick(pick)
    case Section(t) => t in s.ready || t in s.cond.notified
    case Finish(t) => t in s.busy
    case Spurious(t) => t in s.cond.waiting
    case Close => true
  }

  function TakeSection<Task>(s: State<Task>, t: Tid): State<Task> {
    if s.tasks == [] && !s.closed then
      s.(ready := s.ready - {t}, cond := s.cond.Wait(t))
    else if s.closed then
      s.(ready := s.ready - {t}, cond := s.cond.Leave(t), exited := s.exited + {t})
    else
      s.(ready := s.ready - {t}, cond := s.cond.Leave(t), busy := s.busy[t := s.tasks[0]],
         tasks := s.tasks[1..], started := s.started + [s.tasks[0]])
  }

  function Step<Task>(s: State<Task>, e: Event<Task>): State<Task> {
    match e
    case Push(task, pick) => s.(tasks := s.tasks + [task], pushed := s.pushed + [task], cond := s.cond.NotifyOne(pick))
    case Section(t) => TakeSection(s, t)
    case Finish(t) => s.(busy := s.busy - {t}, ready := s.ready + {t})
    case Spurious(t) => s.(ready := s.ready + {t}, cond := s.cond.Leave(t))
    case Close => s.(closed := true, cond := s.cond.NotifyAll())
  }

  function Exec<Task>(s: State<Task>, es: seq<Event<Task>>): State<Task> {
    if es == [] then s else Step(Exec(s, es[..|es| - 1]), es[|es| - 1])
  }

  ghost predicate Legal<Task>(s: State<Task>, es: seq<Event<Task>>) {
    es == [] || (Legal(s, es[..|es| - 1]) && Enabled(Exec(s, es[..|es| - 1]), es[|es| - 1]))
  }

  // Every worker of the pool is in exactly one place.
  ghost predicate Placed<Task>(s: State<Task>, workers: set<Tid>) {
    && s.cond.Valid()
    && s.ready !! s.cond.waiting && s.ready !! s.cond.notified && s.ready !! s.busy.Keys && s.ready !! s.exited
    && s.busy.Keys !! s.cond.waiting && s.busy.Keys !! s.cond.notified && s.busy.Keys !! s.exited
    && s.exited !! s.cond.waiting && s.exited !! s.cond.notified
    && workers == s.ready + s.cond.waiting + s.cond.notified + s.busy.Keys + s.exited
  }

  // A worker waiting un-notified means the pool is open and every pending task has a notified worker.
  ghost predicate NoLostTask<Task>(s: State<Task>) {
    s.cond.waiting != {} ==> !s.closed && |s.tasks| <= |s.cond.notified|
  }

  lemma PlacedStep<Task>(workers: set<Tid>, s: State<Task>, e: Event<Task>)
    requires Placed(s, workers) && Enabled(s, e)
    ensures Placed(Step(s, e), workers)
  {
    if e.Section? {
      var s' := Step(s, e);
      assert workers == s'.ready + s'.cond.waiting + s'.cond.notified + s'.busy.Keys + s'.exited;
    }
  }

  lemma NoLostTaskStep<Task>(s: State<Task>, e: Event<Task>)
    requires s.cond.Valid() && Enabled(s, e) && NoLostTask(s)
    ensures NoLostTask(Step(s, e))
  {
  }

  // Tasks are started in the order of pushing, and workers exit only after `Close`.
  ghost predicate InOrder<Task>(s: State<Task>) {
    s.pushed == s.started + s.tasks && (!s.closed ==> s.exited == {})
  }

  lemma InOrderStep<Task>(s: State<Task>, e: Event<Task>)
    requires Enabled(s, e) && InOrder(s)
    ensures InOrder(Step(s, e))
  {
  }

  /** In every interleaving: each pushed task has been started at most once, in the order of pushing, or is
      still pending; no wakeup is lost; and no worker waits on a closed pool. */
  lemma {:induction false} AlwaysServed<Task>(workers: set<Tid>, es: seq<Event<Task>>)
    requires Legal(Init<Task>(workers), es)
    ensures var s := Exec(Init<Task>(workers), es);
            Placed(s, workers) && InOrder(s) && NoLostTask(s)
  {
    if es != [] {
      var s := Exec(Init<Task>(workers), es[..|es| - 1]);
      AlwaysServed(workers, es[..|es| - 1]);
      PlacedStep(workers, s, es[|es| - 1]);
      InOrderStep(s, es[|es| - 1]);
      NoLostTaskStep(s, es[|es| - 1]);
    }
  }

  /** While the pool is open and tasks are pending, some worker is running a task or can take the first
      pending one at once. */
  lemma PendingMeansProgress<Task>(workers: set<Tid>, es: seq<Event<Task>>)
    requires Legal(Init(workers), es) && workers != {}
    requires var s := Exec(Init<Task>(workers), es); !s.closed && s.tasks != []
    ensures var s := Exec(Init<Task>(workers), es);
            s.busy != map[] ||
            exists t :: t in workers && Enabled(s, Section(t))
                        && Step(s, Section(t)).started == s.started + [s.tasks[0]]
  {
    AlwaysServed(workers, es);
    var s := Exec(Init<Task>(workers), es);
    if s.busy == map[] {
      assert s.ready + s.cond.notified != {} by {
        if s.cond.waiting == {} {
          assert workers == s.ready + s.cond.notified;
        }
      }
      var t :| t in s.ready + s.cond.notified;
      assert Enabled(s, Section(t)) && Step(s, Section(t)).started == s.started + [s.tasks[0]];
    }
  }

  // What lets a worker take the mutex: its task ends, or it wakes up.
  predicate LetsRun<Task>(s: State<Task>, e: Event<Task>, t: Tid) {
    match e
    case Finish(u) => u == t
    case Spurious(u) => u == t
    case Close => t in s.cond.waiting
    case _ => false
  }

  ghost predicate MayRun<Task>(s: State<Task>, t: Tid) {
    (t in s.ready || t in s.cond.notified) && t !in s.cond.waiting && t !in s.busy
  }

  lemma WorkerMayRun<Task>(workers: set<Tid>, s: State<Task>, e: Event<Task>, t: Tid)
    requires Placed(s, workers) && Enabled(s, e)
    requires LetsRun(s, e, t) || (MayRun(s, t) && !(e.Section? && e.t == t))
    ensures MayRun(Step(s, e), t)
  {
  }

  /** When a worker's task has ended, and until the worker takes the mutex, it can take it; it then starts the first
      pending task if the pool is open and there is one. */
  lemma {:induction false} FinishedWorkerGoesOn<Task>(workers: set<Tid>, s: State<Task>, t: Tid, es: seq<Event<Task>>)
    requires Placed(s, workers) && t in s.busy && Legal(Step(s, Finish(t)), es)
    requires forall i :: 0 <= i < |es| ==> !(es[i].Section? && es[i].t == t)
    ensures var s' := Exec(Step(s, Finish(t)), es);
            && Placed(s', workers) && MayRun(s', t) && Enabled(s', Section(t))
            && (!s'.closed && s'.tasks != [] ==>
                  Step(s', Section(t)).busy == s'.busy[t := s'.tasks[0]]
                  && Step(s', Section(t)).tasks == s'.tasks[1..])
  {
    if es == [] {
      PlacedStep(workers, s, Finish(t));
      WorkerMayRun(workers, s, Finish(t), t);
    } else {
      var front, e := es[..|es| - 1], es[|es| - 1];
      FinishedWorkerGoesOn(workers, s, t, front);
      var s' := Exec(Step(s, Finish(t)), front);
      PlacedStep(workers, s', e);
      WorkerMayRun(workers, s', e, t);
    }
  }

  /** After `Close` no task starts, and a worker that takes the mutex exits. */
  lemma {:induction false} NothingStartsAfterClose<Task>(workers: set<Tid>, s: State<Task>, es: seq<Event<Task>>)
    requires Placed(s, workers) && Legal(Step(s, Close), es)
    ensures var s' := Exec(Step(s, Close), es);
            && s'.closed && s'.started == s.started && s'.cond.waiting == {} && Placed(s', workers)
            && forall t :: Enabled(s', Section(t)) ==> t in Step(s', Section(t)).exited
  {
    PlacedStep(workers, s, Close);
    if es != [] {
      NothingStartsAfterClose(workers, s, es[..|es| - 1]);
      PlacedStep(workers, Exec(Step(s, Close), es[..|es| - 1]), es[|es| - 1]);
    }
  }

  // A worker waits, wakes up for nothing, waits again, runs a task, and exits after `Close`.
  const TYPICAL: seq<Event<char>> :=
    [Section(0), Spurious(0), Section(0), Push('a', 0), Section(0), Finish(0), Close, Section(0)]

  lemma Next(s: State<char>, es: seq<Event<char>>, e: Event<char>, next: State<char>)
    requires Legal(Init({0}), es) && Exec(Init({0}), es) == s && Enabled(s, e) && Step(s, e) == next
    ensures Legal(Init({0}), es + [e]) && Exec(Init({0}), es + [e]) == next
  {
    assert (es + [e])[..|es|] == es;
  }

  lemma FirstHalf(start: State<char>, waits: State<char>)
    requires start == Init({0}) && waits == State([], false, {}, CondVar({0}, {}), map[], {}, [], [])
    ensures Step(start, Section(0)) == waits && Step(waits, Spurious(0)) == start
    ensures Step(waits, Push('a', 0)) == State(['a'], false, {}, CondVar({}, {0}), map[], {}, ['a'], [])
  {
  }

  lemma SecondHalf(pushed: State<char>, runs: State<char>, done: State<char>)
    requires pushed == State(['a'], false, {}, CondVar({}, {0}), map[], {}, ['a'], [])
    requires runs == State([], false, {}, CondVar({}, {}), map[0 := 'a'], {}, ['a'], ['a'])
    requires done == State([], false, {0}, CondVar({}, {}), map[], {}, ['a'], ['a'])
    ensures Step(pushed, Section(0)) == runs && Step(runs, Finish(0)) == done
    ensures Step(done, Close) == done.(closed := true)
    ensures Step(done.(closed := true), Section(0))
            == State([], true, {}, CondVar({}, {}), map[], {0}, ['a'], ['a'])
  {
  }

  /** Such a worker has run its task and is gone. */
  lemma TypicalRun()
    ensures exists es :: es == TYPICAL && Legal(Init({0}), es)
                         && Exec(Init({0}), es) == State([], true, {}, CondVar({}, {}), map[], {0}, ['a'], ['a'])
  {
    var start: State<char> := Init({0});
    var waits := State([], false, {}, CondVar({0}, {}), map[], {}, [], []);
    var pushed := State(['a'], false, {}, CondVar({}, {0}), map[], {}, ['a'], []);
    var runs := State([], false, {}, CondVar({}, {}), map[0 := 'a'], {}, ['a'], ['a']);
    var done := State([], false, {0}, CondVar({}, {}), map[], {}, ['a'], ['a']);
    var end := State([], true, {}, CondVar({}, {}), map[], {0}, ['a'], ['a']);
    FirstHalf(start, waits);
    SecondHalf(pushed, runs, done);
    Next(start, [], Section(0), waits);
    var e1 := [] + [Section(0)];
    Next(waits, e1, Spurious(0), start);
    var e2 := e1 + [Spurious(0)];
    Next(start, e2, Section(0), waits);
    var e3 := e2 + [Section(0)];
    Next(waits, e3, Push('a', 0), pushed);
    var e4 := e3 + [Push('a', 0)];
    Next(pushed, e4, Section(0), runs);
    var e5 := e4 + [Section(0)];
    Next(runs, e5, Finish(0), done);
    var e6 := e5 + [Finish(0)];
    Next(done, e6, Close, done.(closed := true));
    var e7 := e6 + [Close];
    Next(done.(closed := true), e7, Section(0), end);
    assert e7 + [Section(0)] == TYPICAL;
  }

  /** The fields of the pool; each method is one critical section and is proved to be a step of the
      transition system. */
  class ThreadPool<Task> {
    var tasks: seq<Task>
    var closed: bool
    ghost var ready: set<Tid>
    ghost var cond: CondVar
    ghost var busy: map<Tid, Task>
    ghost var exited: set<Tid>
    ghost var pushed: seq<Task>
    ghost var started: seq<Task>

    ghost function View(): State<Task>
      reads this
    {
      State(tasks, closed, ready, cond, busy, exited, pushed, started)
    }

    // `Start` follows the construction.
    constructor (ghost workers: set<Tid>)
      ensures View() == Init(workers)
    {
      tasks, closed := [], false;
      ready, cond, busy, exited := workers, CondVar({}, {}), map[], {};
      pushed, started := [], [];
    }

    method Enqueue(task: Task, ghost pick: Tid)
      requires cond.CanPick(pick)
      modifies this
      ensures Enabled(old(View()), Event.Push(task, pick)) && View() == Step(old(View()), Event.Push(task, pick))
    {
      tasks := tasks + [task];
      pushed := pushed + [task];
      cond := cond.NotifyOne(pick);
    }

    // The critical section of `ExecProc`; none of the two results means that the worker waits.
    method Take(t: Tid) returns (task: Option<Task>, exit: bool)
      requires Enabled(View(), Section(t))
      modifies this
      ensures View() == Step(old(View()), Section(t))
      ensures exit == old(closed)
      ensures task == if old(closed) || old(tasks) == [] then None else Some(old(tasks)[0])
    {
      ready := ready - {t};
      if tasks == [] && !closed {
        cond := cond.Wait(t);
        return None, false;
      }
      cond := cond.Leave(t);
      if !closed {
        task, exit := Some(tasks[0]), false;
        busy, started := busy[t := tasks[0]], started + [tasks[0]];
        tasks := tasks[1..];
      } else {
        exited := exited + {t};
        return None, true;
      }
    }

    method CloseAll()
      modifies this
      ensures View() == Step(old(View()), Event.Close)
    {
      closed := true;
      cond := cond.NotifyAll();
    }
  }
}
