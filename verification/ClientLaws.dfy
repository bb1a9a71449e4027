/**
  What the event loop promises each client: its tasks are the ones it was registered for, it is closed only when it
  has been idle for its alive time or was marked, and marked clients do not survive the next round of the loop.
 */
module ClientLaws {
  import opened CondVars
  import opened HeapTimers
  import opened WebServers

  // ----- Tasks fit the registration of their client

  // A receiving task belongs to a socket registered for reading, a sending one to a socket registered for writing.
  predicate TaskFits(epoll: map<Fd, Registration>, task: Task) {
    task.fd in epoll ==> epoll[task.fd].mode == if task.Receive? then In else Out
  }

  predicate ItemFits(epoll: map<Fd, Registration>, item: Item) {
    item.Ready? && item.fd in epoll ==>
      && (item.kind.Readable? ==> epoll[item.fd].mode.In?)
      && (item.kind.Writable? ==> epoll[item.fd].mode.Out?)
  }

  ghost predicate AllFit(s: State) {
    && (s.phase.Dispatching? ==> forall i :: 0 <= i < |s.phase.batch| ==> ItemFits(s.epoll, s.phase.batch[i]))
    && (forall i :: 0 <= i < |s.queue| ==> TaskFits(s.epoll, s.queue[i]))
    && (forall w :: w in s.running ==> TaskFits(s.epoll, s.running[w]))
  }

  lemma {:induction false} QueuedIsCounted(queue: seq<Task>, i: nat)
    requires i < |queue|
    ensures TaskCount(queue, queue[i].fd) > 0
  {
    if i > 0 {
      QueuedIsCounted(queue[1..], i - 1);
    }
  }

  lemma {:induction false} DeliveredIsCounted(batch: seq<Item>, i: nat)
    requires i < |batch| && batch[i].Ready?
    ensures ItemCount(batch, batch[i].fd) > 0
  {
    if i > 0 {
      DeliveredIsCounted(batch[1..], i - 1);
    }
  }

  lemma RunningIsCounted(running: map<Tid, Task>, w: Tid)
    requires w in running
    ensures RunningCount(running, running[w].fd) > 0
    ensures forall v :: v in running && v != w && running[v].fd == running[w].fd ==> RunningCount(running, running[w].fd) > 1
  {
    var fd := running[w].fd;
    CardinalityMonotone({w}, Workers(running, fd));
    forall v | v in running && v != w && running[v].fd == fd
      ensures RunningCount(running, fd) > 1
    {
      CardinalityMonotone({v, w}, Workers(running, fd));
    }
  }

  // A client with a running task is in no other place.
  lemma OnlyTaskOf(s: State, w: Tid)
    requires w in s.running && Tokens(s, s.running[w].fd) <= 1
    ensures var fd := s.running[w].fd;
            && (forall i :: 0 <= i < |s.queue| ==> s.queue[i].fd != fd)
            && (forall v :: v in s.running && v != w ==> s.running[v].fd != fd)
            && (s.phase.Dispatching? ==>
                  forall i :: 0 <= i < |s.phase.batch| && s.phase.batch[i].Ready? ==> s.phase.batch[i].fd != fd)
  {
    var fd := s.running[w].fd;
    RunningIsCounted(s.running, w);
    forall i | 0 <= i < |s.queue|
      ensures s.queue[i].fd != fd
    {
      QueuedIsCounted(s.queue, i);
    }
    if s.phase.Dispatching? {
      forall i | 0 <= i < |s.phase.batch| && s.phase.batch[i].Ready?
        ensures s.phase.batch[i].fd != fd
      {
        DeliveredIsCounted(s.phase.batch, i);
      }
    }
  }

  lemma RearmFits(s: State, w: Tid, mode: Mode)
    requires w in s.running && AllFit(s) && Tokens(s, s.running[w].fd) <= 1
    ensures AllFit(Rearmed(s, w, s.running[w].fd, mode))
  {
    OnlyTaskOf(s, w);
  }

  lemma AcceptFits(s: State, fd: Fd)
    requires Consistent(s) && AllFit(s) && Enabled(s, Accept(fd))
    ensures AllFit(Accepted(s, fd))
  {
    forall i | 0 <= i < |s.queue|
      ensures s.queue[i].fd != fd
    {
      QueuedIsCounted(s.queue, i);
    }
    forall w | w in s.running
      ensures s.running[w].fd != fd
    {
      RunningIsCounted(s.running, w);
    }
    forall i | 0 <= i < |s.phase.batch| && s.phase.batch[i].Ready?
      ensures s.phase.batch[i].fd != fd
    {
      assert s.phase.batch[i] in s.phase.batch;
    }
  }

  lemma DispatchFits(s: State)
    requires AllFit(s) && Consistent(s) && Enabled(s, Dispatch)
    ensures AllFit(Step(s, Dispatch))
  {
    assert ItemFits(s.epoll, s.phase.batch[0]);
    var rest := s.phase.batch[1..];
    assert forall i :: 0 <= i < |rest| ==> rest[i] == s.phase.batch[i + 1];
  }

  lemma DeliverFits(s: State, batch: seq<Item>)
    requires AllFit(s) && Enabled(s, Deliver(batch))
    ensures AllFit(Step(s, Deliver(batch)))
  {
    var epoll := Disarm(s.epoll, batch);
    forall i | 0 <= i < |batch|
      ensures ItemFits(epoll, batch[i])
    {
      assert Deliverable(s.epoll, batch[i]);
    }
  }

  lemma AllFitStep(s: State, e: Event)
    requires Consistent(s) && OneActivity(s) && AllFit(s) && Enabled(s, e)
    ensures AllFit(Step(s, e))
  {
    match e {
      case Rearm(w, mode) => RearmFits(s, w, mode);
      case Accept(fd) => AcceptFits(s, fd);
      case Dispatch => DispatchFits(s);
      case Deliver(batch) => DeliverFits(s, batch);
      case AcceptDone =>
        var rest := s.phase.batch[1..];
        assert forall i :: 0 <= i < |rest| ==> rest[i] == s.phase.batch[i + 1];
      case _ =>
    }
  }

  /** In every run, every queued or running task does what its client's socket was last registered for. */
  lemma {:induction false} TasksAlwaysFit(aliveTime: Time, states: seq<State>, es: seq<Event>, i: nat)
    requires Run(aliveTime, states, es) && i < |states|
    ensures AllFit(states[i])
    decreases i
  {
    if i > 0 {
      TasksAlwaysFit(aliveTime, states, es, i - 1);
      AlwaysOneActivity(aliveTime, states, es, i - 1);
      AllFitStep(states[i - 1], es[i - 1]);
    }
  }

  // ----- What workers ask for is what happens

  // A step in which a worker asks for the next event of the client, or in which the client is accepted.
  function AskedNext(asked: Mode, s: State, e: Event, fd: Fd): Mode {
    match e
    case Accept(k) => if k == fd then In else asked
    case Rearm(w, mode) => if w in s.running && s.running[w].fd == fd then mode else asked
    case _ => asked
  }

  /** What a client's worker has last asked its socket to wait for, by the events alone: the mode of the last `Rearm` of
      a task of the client, and receiving if there has been none since the client was accepted. */
  ghost function Asked(states: seq<State>, es: seq<Event>, n: nat, fd: Fd): Mode
    requires n <= |es| < |states|
  {
    if n == 0 then In else AskedNext(Asked(states, es, n - 1, fd), states[n - 1], es[n - 1], fd)
  }

  predicate WaitsFor(epoll: map<Fd, Registration>, fd: Fd, asked: Mode) {
    fd in epoll ==> epoll[fd].mode == asked
  }

  lemma ModeStep(s: State, e: Event, next: State, fd: Fd, asked: Mode)
    requires Enabled(s, e) && next == Step(s, e) && WaitsFor(s.epoll, fd, asked)
    ensures WaitsFor(next.epoll, fd, AskedNext(asked, s, e, fd))
  {
  }

  /** In every run, each registered socket waits for what was last asked for. */
  lemma {:induction false} SocketsWaitForWhatWasAsked(aliveTime: Time, states: seq<State>, es: seq<Event>, i: nat, fd: Fd)
    requires Run(aliveTime, states, es) && i < |states|
    ensures WaitsFor(states[i].epoll, fd, Asked(states, es, i, fd))
    decreases i
  {
    if i > 0 {
      SocketsWaitForWhatWasAsked(aliveTime, states, es, i - 1, fd);
      ModeStep(states[i - 1], es[i - 1], states[i], fd, Asked(states, es, i - 1, fd));
    }
  }

  /** Of an armed socket, exactly the event that was last asked for can be delivered. */
  lemma AskedForIsDeliverable(aliveTime: Time, states: seq<State>, es: seq<Event>, i: nat, fd: Fd)
    requires Run(aliveTime, states, es) && i < |states| && !states[i].aborted && states[i].phase.Waiting?
    requires fd in states[i].epoll && states[i].epoll[fd].armed
    ensures Enabled(states[i], Deliver([Ready(fd, Readable)])) <==> Asked(states, es, i, fd).In?
    ensures Enabled(states[i], Deliver([Ready(fd, Writable)])) <==> Asked(states, es, i, fd).Out?
  {
    SocketsWaitForWhatWasAsked(aliveTime, states, es, i, fd);
    var s, readable, writable := states[i], Ready(fd, Readable), Ready(fd, Writable);
    assert Deliverable(s.epoll, readable) <==> Asked(states, es, i, fd).In?;
    assert Deliverable(s.epoll, writable) <==> Asked(states, es, i, fd).Out?;
    assert [readable][0] == readable && [writable][0] == writable;
  }

  /** A task succeeds and leaves its client's socket armed for what it has asked for. */
  lemma RearmIsGranted(aliveTime: Time, states: seq<State>, es: seq<Event>, i: nat)
    requires Run(aliveTime, states, es) && i < |es| && es[i].Rearm? && !states[i + 1].aborted
    ensures var fd := states[i].running[es[i].w].fd;
            && fd in states[i + 1].epoll && states[i + 1].epoll[fd] == Registration(es[i].mode, true)
            && Asked(states, es, i + 1, fd) == es[i].mode
  {
    assert Enabled(states[i], es[i]) && states[i + 1] == Step(states[i], es[i]);
    var fd := states[i].running[es[i].w].fd;
    SocketsWaitForWhatWasAsked(aliveTime, states, es, i + 1, fd);
  }

  /** Every queued or running task receives if receiving was last asked for, and sends if sending was. */
  lemma TasksDoWhatWasAsked(aliveTime: Time, states: seq<State>, es: seq<Event>, i: nat, task: Task)
    requires Run(aliveTime, states, es) && i < |states| && task.fd in states[i].epoll
    requires task in states[i].queue || exists w :: w in states[i].running && states[i].running[w] == task
    ensures task.Receive? <==> Asked(states, es, i, task.fd).In?
  {
    TasksAlwaysFit(aliveTime, states, es, i);
    SocketsWaitForWhatWasAsked(aliveTime, states, es, i, task.fd);
    assert TaskFits(states[i].epoll, task);
  }

  /** The callback of each timer removes exactly the key it is called with. */
  lemma {:induction false} CallbacksClose(aliveTime: Time, states: seq<State>, es: seq<Event>, i: nat, fd: Fd)
    requires Run(aliveTime, states, es) && i < |states| && fd in states[i].timer
    ensures RemovedBy(states[i].timer[fd].callback) == {fd}
    decreases i
  {
    if i > 0 {
      var s, e := states[i - 1], es[i - 1];
      assert Enabled(s, e) && states[i] == Step(s, e);
      if !(e.Accept? && e.fd == fd) {
        CallbackStep(s, e, fd);
        CallbacksClose(aliveTime, states, es, i - 1, fd);
      }
    }
  }

  lemma CallbackStep(s: State, e: Event, fd: Fd)
    requires Enabled(s, e) && fd in Step(s, e).timer && !(e.Accept? && e.fd == fd)
    ensures fd in s.timer && Step(s, e).timer[fd].callback == s.timer[fd].callback
  {
  }

  // ----- When clients are closed

  // A marked client is due; another one is due after its alive time since the last time it was active.
  predicate DeadlineFits(s: State, fd: Fd)
    requires fd in s.timer
  {
    if fd in s.marked then s.timer[fd].expiration <= s.now
    else fd in s.active && s.timer[fd].expiration == s.active[fd] + s.aliveTime
  }

  // Marked clients have no activity, and all deadlines fit.
  ghost predicate OnTime(s: State) {
    && (forall fd :: fd in s.marked ==> fd in s.users && (s.aborted || Tokens(s, fd) == 0))
    && (forall fd :: fd in s.timer ==> DeadlineFits(s, fd))
  }

  lemma DispatchDeadline(s: State, fd: Fd)
    requires Consistent(s) && Enabled(s, Dispatch) && fd in s.timer && DeadlineFits(s, fd)
    requires forall k :: k in s.marked ==> Tokens(s, k) == 0
    ensures fd in Step(s, Dispatch).timer && DeadlineFits(Step(s, Dispatch), fd)
  {
    DeliveredIsCounted(s.phase.batch, 0);
    assert s.phase.batch[0].fd !in s.marked;
  }

  lemma MarkDeadline(s: State, k: Fd, fd: Fd)
    requires fd in s.timer && DeadlineFits(s, fd)
    ensures fd in Mark(s, k).timer && DeadlineFits(Mark(s, k), fd)
  {
  }

  lemma AcceptDeadline(s: State, k: Fd, fd: Fd)
    requires OnTime(s) && k !in s.users && fd in Accepted(s, k).timer
    ensures DeadlineFits(Accepted(s, k), fd)
  {
    if fd != k {
      assert fd in s.timer && DeadlineFits(s, fd);
    }
  }

  lemma OtherDeadline(s: State, e: Event, fd: Fd)
    requires Enabled(s, e) && !e.Dispatch? && !e.Fail? && !e.Accept?
    requires fd in Step(s, e).timer && (fd in s.timer ==> DeadlineFits(s, fd))
    requires s.phase.Closing? ==> s.phase.fd !in s.timer
    ensures DeadlineFits(Step(s, e), fd)
  {
  }

  lemma DeadlineStep(s: State, e: Event, fd: Fd)
    requires Consistent(s) && OnTime(s) && Enabled(s, e) && fd in Step(s, e).timer
    ensures DeadlineFits(Step(s, e), fd)
  {
    if e.Dispatch? {
      KnownItem(s);
      DispatchDeadline(s, fd);
    } else if e.Fail? {
      FailDeadline(s, e.w, fd);
    } else if e.Accept? {
      AcceptDeadline(s, e.fd, fd);
    } else {
      OtherDeadline(s, e, fd);
    }
  }

  lemma FailDeadline(s: State, w: Tid, fd: Fd)
    requires OnTime(s) && Enabled(s, Fail(w)) && fd in Step(s, Fail(w)).timer
    ensures DeadlineFits(Step(s, Fail(w)), fd)
  {
    assert fd in s.timer && DeadlineFits(s, fd);
    MarkDeadline(s, s.running[w].fd, fd);
  }

  lemma MarkedAreUsers(s: State, e: Event, fd: Fd)
    requires Consistent(s) && OnTime(s) && Enabled(s, e) && fd in Step(s, e).marked
    ensures fd in Step(s, e).users
  {
    if e.Dispatch? {
      assert s.phase.batch[0] in s.phase.batch;
    }
  }

  lemma MarkedHaveNoActivity(s: State, e: Event, fd: Fd)
    requires Consistent(s) && OnTime(s) && OneActivity(s) && Enabled(s, e) && !Step(s, e).aborted
    requires fd in Step(s, e).marked
    ensures Tokens(Step(s, e), fd) == 0
  {
    match e {
      case Dispatch => DispatchMarked(s, fd);
      case Fail(w) => FailMarked(s, w, fd);
      case _ => TokensStep(s, e, fd);
    }
  }

  lemma DispatchMarked(s: State, fd: Fd)
    requires Consistent(s) && OnTime(s) && OneActivity(s) && Enabled(s, Dispatch) && !Step(s, Dispatch).aborted
    requires fd in Step(s, Dispatch).marked
    ensures Tokens(Step(s, Dispatch), fd) == 0
  {
    TokensStep(s, Dispatch, fd);
    KnownItem(s);
    DeliveredIsCounted(s.phase.batch, 0);
  }

  lemma FailMarked(s: State, w: Tid, fd: Fd)
    requires Consistent(s) && OnTime(s) && OneActivity(s) && Enabled(s, Fail(w)) && !Step(s, Fail(w)).aborted
    requires fd in Step(s, Fail(w)).marked
    ensures Tokens(Step(s, Fail(w)), fd) == 0
  {
    TokensStep(s, Fail(w), fd);
    RunningIsCounted(s.running, w);
  }

  lemma OnTimeStep(s: State, e: Event)
    requires Consistent(s) && OneActivity(s) && OnTime(s) && Enabled(s, e)
    ensures OnTime(Step(s, e))
  {
    forall fd | fd in Step(s, e).timer
      ensures DeadlineFits(Step(s, e), fd)
    {
      DeadlineStep(s, e, fd);
    }
    forall fd | fd in Step(s, e).marked
      ensures fd in Step(s, e).users && (Step(s, e).aborted || Tokens(Step(s, e), fd) == 0)
    {
      MarkedAreUsers(s, e, fd);
      if !Step(s, e).aborted {
        MarkedHaveNoActivity(s, e, fd);
      }
    }
  }

  lemma {:induction false} AlwaysOnTime(aliveTime: Time, states: seq<State>, es: seq<Event>, i: nat)
    requires Run(aliveTime, states, es) && i < |states|
    ensures OnTime(states[i]) && states[i].aliveTime == aliveTime
    decreases i
  {
    if i > 0 {
      AlwaysOnTime(aliveTime, states, es, i - 1);
      AlwaysOneActivity(aliveTime, states, es, i - 1);
      OnTimeStep(states[i - 1], es[i - 1]);
    }
  }

  /** A client is closed only if it was marked, or if its alive time has passed since it was accepted and since the
      last event of it that started a task. */
  lemma ClosedOnlyWhenDue(aliveTime: Time, states: seq<State>, es: seq<Event>, i: nat)
    requires Run(aliveTime, states, es) && i < |es| && es[i].ExpireTop?
    ensures var s, fd := states[i], es[i].fd;
            fd in s.marked || (fd in s.active && s.active[fd] + aliveTime <= s.now)
  {
    AlwaysOnTime(aliveTime, states, es, i);
    assert Enabled(states[i], es[i]) && DeadlineFits(states[i], es[i].fd);
  }

  /** When the main thread starts waiting for events, every marked client and every client that has been idle for its
      alive time is gone. */
  lemma DueClientsAreGone(aliveTime: Time, states: seq<State>, es: seq<Event>, i: nat)
    requires Run(aliveTime, states, es) && i < |es| && es[i].EndTick?
    ensures var s := states[i + 1];
            s.marked == {} && forall fd :: fd in s.users ==> fd in s.active && s.now < s.active[fd] + aliveTime
  {
    AlwaysOnTime(aliveTime, states, es, i);
    AlwaysOneActivity(aliveTime, states, es, i);
    var s := states[i];
    assert Enabled(s, es[i]) && states[i + 1] == Step(s, es[i]);
    forall fd | fd in s.users
      ensures fd in s.timer && fd !in s.marked && DeadlineFits(s, fd)
    {
      assert fd in s.timer ==> s.now < s.timer[fd].expiration;
    }
  }
}
