/**
  The life of the clients of the web server. The main thread removes expired clients, waits for
  events and dispatches them; worker threads run receiving and sending tasks. A client's
  socket is registered in one-shot mode: once an event is delivered, the socket stays silent
  until a worker arms it again.
 */
module WebServers {
  import opened CondVars
  import opened HeapTimers
  import opened Wrappers

  type Fd = nat

  datatype Mode = In | Out

  // What a socket is registered for, and whether an event may still be delivered.
  datatype Registration = Registration(mode: Mode, armed: bool)

  datatype Kind = Hangup | Readable | Writable | Other

  // One element of what waiting for events returns.
  datatype Item = Listen | Ready(fd: Fd, kind: Kind)

  datatype Task = Receive(fd: Fd) | Send(fd: Fd)

  // Where the main thread is in its loop.
  datatype Phase = Ticking | Closing(fd: Fd) | Waiting | Dispatching(batch: seq<Item>)

  /** `aborted` means that an assertion failed or an exception left a function that must not throw. The last two
      fields are history: when each client was last accepted or had a receive or send event, and which clients have
      been marked as to be closed. */
  datatype State = State(
    now: Time,
    aliveTime: Time,
    phase: Phase,
    users: set<Fd>,
    timer: map<Fd, Entry<Fd>>,
    epoll: map<Fd, Registration>,
    queue: seq<Task>,
    running: map<Tid, Task>,
    aborted: bool,
    active: map<Fd, Time>,
    marked: set<Fd>)

  datatype Event =
    | Advance(duration: nat)      // time passes
    | ExpireTop(fd: Fd)           // `Tick` pops the earliest client, which has expired
    | CloseClient                 // the callback of the popped client
    | EndTick
    | Deliver(batch: seq<Item>)   // waiting returns
    | Dispatch                    // the main thread handles the next event of a client
    | Accept(fd: Fd)
    | AcceptDone                  // no more connections for now
    | AcceptFails                 // an exception leaves the dispatch loop
    | EndBatch
    | Take(w: Tid)                // a worker takes the first task
    | Rearm(w: Tid, mode: Mode)   // the task succeeds and registers the next event
    | Fail(w: Tid)                // the task gives the client up

  function Init(aliveTime: Time): State {
    State(0, aliveTime, Ticking, {}, map[], map[], [], map[], false, map[], {})
  }

  // The mode in which a socket has to be armed for an event to be delivered.
  predicate Deliverable(epoll: map<Fd, Registration>, item: Item) {
    item.Listen? ||
    (item.fd in epoll && epoll[item.fd].armed
     && (item.kind.Readable? ==> epoll[item.fd].mode.In?)
     && (item.kind.Writable? ==> epoll[item.fd].mode.Out?))
  }

  ghost predicate Distinct(batch: seq<Item>) {
    forall i, j :: 0 <= i < j < |batch| ==> batch[i].Ready? && batch[j].Ready? ==> batch[i].fd != batch[j].fd
  }

  ghost predicate Enabled(s: State, e: Event) {
    !s.aborted &&
    match e
    case Advance(_) => true
    case ExpireTop(fd) =>
      s.phase.Ticking? && fd in s.timer && s.timer[fd].expiration <= s.now
      && forall k :: k in s.timer ==> s.timer[fd].expiration <= s.timer[k].expiration
    case CloseClient => s.phase.Closing?
    case EndTick => s.phase.Ticking? && forall k :: k in s.timer ==> s.now < s.timer[k].expiration
    case Deliver(batch) =>
      s.phase.Waiting? && Distinct(batch) && forall i :: 0 <= i < |batch| ==> Deliverable(s.epoll, batch[i])
    case Dispatch => s.phase.Dispatching? && s.phase.batch != [] && s.phase.batch[0].Ready?
    case Accept(fd) =>
      // The kernel never returns the descriptor of a socket that is still open.
      s.phase.Dispatching? && s.phase.batch != [] && s.phase.batch[0].Listen?
      && fd !in s.users && TaskCount(s.queue, fd) == 0 && RunningCount(s.running, fd) == 0
    case AcceptDone => s.phase.Dispatching? && s.phase.batch != [] && s.phase.batch[0].Listen?
    case AcceptFails => s.phase.Dispatching? && s.phase.batch != [] && s.phase.batch[0].Listen?
    case EndBatch => s.phase == Dispatching([])
    case Take(w) => w !in s.running && s.queue != []
    case Rearm(w, _) => w in s.running
    case Fail(w) => w in s.running
  }

  function Retimed(timer: map<Fd, Entry<Fd>>, fd: Fd, expiration: Time): map<Fd, Entry<Fd>>
    requires fd in timer
  {
    timer[fd := timer[fd].(expiration := expiration)]
  }

  // Make the client's remaining time zero; the key has to be there.
  function Mark(s: State, fd: Fd): State {
    if fd in s.timer then s.(timer := Retimed(s.timer, fd, s.now), marked := s.marked + {fd}) else s.(aborted := true)
  }

  // Renew the client's time and queue its task, if it is still there.
  function Enqueue(s: State, fd: Fd, task: Task): State {
    if fd in s.timer then Extended(s, fd).(queue := s.queue + [task]) else s
  }

  function Extended(s: State, fd: Fd): State
    requires fd in s.timer
  {
    s.(timer := Retimed(s.timer, fd, s.now + s.aliveTime), active := s.active[fd := s.now])
  }

  function DispatchItem(s: State, fd: Fd, kind: Kind): State {
    match kind
    case Hangup => Mark(s, fd)
    case Readable => Enqueue(s, fd, Receive(fd))
    case Writable => Enqueue(s, fd, Send(fd))
    case Other => s.(phase := Ticking)
  }

  function Expired(s: State, fd: Fd): State {
    s.(timer := s.timer - {fd}, phase := Closing(fd))
  }

  function Closed(s: State, fd: Fd): State {
    s.(epoll := s.epoll - {fd}, users := s.users - {fd}, phase := Ticking, marked := s.marked - {fd})
  }

  function Accepted(s: State, fd: Fd): State {
    s.(epoll := s.epoll[fd := Registration(In, true)], users := s.users + {fd},
       timer := s.timer[fd := Entry(s.now + s.aliveTime, Callback(0, [fd]))], active := s.active[fd := s.now])
  }

  function Rearmed(s: State, w: Tid, fd: Fd, mode: Mode): State {
    if fd in s.epoll then s.(epoll := s.epoll[fd := Registration(mode, true)], running := s.running - {w})
    else s.(aborted := true)
  }

  function GivenUp(s: State, w: Tid, fd: Fd): State {
    Mark(s, fd).(running := s.running - {w})
  }

  function Disarm(epoll: map<Fd, Registration>, batch: seq<Item>): map<Fd, Registration> {
    map fd | fd in epoll ::
      if exists i :: 0 <= i < |batch| && batch[i].Ready? && batch[i].fd == fd then epoll[fd].(armed := false)
      else epoll[fd]
  }

  ghost function Step(s: State, e: Event): State
    requires Enabled(s, e)
  {
    match e
    case Advance(duration) => s.(now := s.now + duration)
    case ExpireTop(fd) => Expired(s, fd)
    case CloseClient => Closed(s, s.phase.fd)
    case EndTick => s.(phase := Waiting)
    case Deliver(batch) => s.(epoll := Disarm(s.epoll, batch), phase := Dispatching(batch))
    case Dispatch =>
      DispatchItem(s.(phase := Dispatching(s.phase.batch[1..])), s.phase.batch[0].fd, s.phase.batch[0].kind)
    case Accept(fd) => Accepted(s, fd)
    case AcceptDone => s.(phase := Dispatching(s.phase.batch[1..]))
    case AcceptFails => s.(phase := Ticking)
    case EndBatch => s.(phase := Ticking)
    case Take(w) => s.(running := s.running[w := s.queue[0]], queue := s.queue[1..])
    case Rearm(w, mode) => Rearmed(s, w, s.running[w].fd, mode)
    case Fail(w) => GivenUp(s, w, s.running[w].fd)
  }

  // ----- Who may touch a client's connection

  function ItemCount(batch: seq<Item>, fd: Fd): nat {
    if batch == [] then 0
    else (if batch[0].Ready? && batch[0].fd == fd then 1 else 0) + ItemCount(batch[1..], fd)
  }

  function TaskCount(queue: seq<Task>, fd: Fd): nat {
    if queue == [] then 0 else (if queue[0].fd == fd then 1 else 0) + TaskCount(queue[1..], fd)
  }

  function Workers(running: map<Tid, Task>, fd: Fd): set<Tid> {
    set w | w in running && running[w].fd == fd
  }

  function RunningCount(running: map<Tid, Task>, fd: Fd): nat {
    |Workers(running, fd)|
  }

  function ArmedCount(epoll: map<Fd, Registration>, fd: Fd): nat {
    if fd in epoll && epoll[fd].armed then 1 else 0
  }

  function PhaseCount(phase: Phase, fd: Fd): nat {
    if phase.Dispatching? then ItemCount(phase.batch, fd) else 0
  }

  // The number of activities that hold, or may obtain, the right to use the client's connection.
  function Tokens(s: State, fd: Fd): nat {
    ArmedCount(s.epoll, fd) + PhaseCount(s.phase, fd) + TaskCount(s.queue, fd) + RunningCount(s.running, fd)
  }

  lemma {:induction false} TaskCountAppend(queue: seq<Task>, task: Task, fd: Fd)
    ensures TaskCount(queue + [task], fd) == TaskCount(queue, fd) + if task.fd == fd then 1 else 0
  {
    if queue == [] {
      assert queue + [task] == [task];
    } else {
      assert (queue + [task])[1..] == queue[1..] + [task];
      TaskCountAppend(queue[1..], task, fd);
    }
  }

  lemma {:induction false} ItemCountDistinct(batch: seq<Item>, fd: Fd)
    requires Distinct(batch)
    ensures ItemCount(batch, fd)
            == if exists i :: 0 <= i < |batch| && batch[i].Ready? && batch[i].fd == fd then 1 else 0
  {
    if batch != [] {
      assert forall i :: 0 <= i < |batch| - 1 ==> batch[1..][i] == batch[i + 1];
      ItemCountDistinct(batch[1..], fd);
      if exists i :: 0 <= i < |batch| && batch[i].Ready? && batch[i].fd == fd {
        var i :| 0 <= i < |batch| && batch[i].Ready? && batch[i].fd == fd;
        if i > 0 {
          assert batch[1..][i - 1].fd == fd;
        }
      }
    }
  }

  lemma RunningCountSteps(running: map<Tid, Task>, w: Tid, task: Task, fd: Fd)
    ensures w !in running ==>
              RunningCount(running[w := task], fd) == RunningCount(running, fd) + if task.fd == fd then 1 else 0
    ensures w in running ==>
              RunningCount(running - {w}, fd) == RunningCount(running, fd) - if running[w].fd == fd then 1 else 0
  {
    var ws := Workers(running, fd);
    if w !in running {
      assert Workers(running[w := task], fd) == if task.fd == fd then ws + {w} else ws;
    } else {
      assert Workers(running - {w}, fd) == ws - {w};
    }
  }

  // ----- Invariants of every run

  // The tables agree: the registered sockets are the users, and the timer lacks only the client being closed.
  ghost predicate Consistent(s: State) {
    && (forall fd :: fd in s.epoll <==> fd in s.users)
    && (forall fd :: fd in s.timer <==> fd in s.users && s.phase != Closing(fd))
    && (s.phase.Closing? ==> s.phase.fd in s.users)
    && (s.phase.Dispatching? ==> BatchKnown(s.phase.batch, s.users))
  }

  ghost predicate BatchKnown(batch: seq<Item>, users: set<Fd>) {
    forall item :: item in batch && item.Ready? ==> item.fd in users
  }

  lemma {:induction false} ItemCountMember(batch: seq<Item>, fd: Fd)
    requires ItemCount(batch, fd) > 0
    ensures exists i :: 0 <= i < |batch| && batch[i].Ready? && batch[i].fd == fd
  {
    if !(batch[0].Ready? && batch[0].fd == fd) {
      ItemCountMember(batch[1..], fd);
      var i :| 0 <= i < |batch[1..]| && batch[1..][i].Ready? && batch[1..][i].fd == fd;
      assert batch[i + 1].fd == fd;
    }
  }

  lemma DispatchConsistent(s: State)
    requires Consistent(s) && Enabled(s, Dispatch)
    ensures Consistent(Step(s, Dispatch))
  {
    assert forall item :: item in s.phase.batch[1..] ==> item in s.phase.batch;
  }

  lemma DeliverConsistent(s: State, batch: seq<Item>)
    requires Consistent(s) && Enabled(s, Deliver(batch))
    ensures Consistent(Step(s, Deliver(batch)))
  {
    forall item | item in batch && item.Ready?
      ensures item.fd in s.users
    {
      assert Deliverable(s.epoll, item);
    }
  }

  lemma ConsistentStep(s: State, e: Event)
    requires Consistent(s) && Enabled(s, e)
    ensures Consistent(Step(s, e))
  {
    match e {
      case Dispatch => DispatchConsistent(s);
      case Deliver(batch) => DeliverConsistent(s, batch);
      case Accept(fd) => assert Consistent(Accepted(s, fd));
      case AcceptDone => assert forall item :: item in s.phase.batch[1..] ==> item in s.phase.batch;
      case _ =>
    }
  }

  // What a step takes away from a client's activities.
  function Dropped(s: State, e: Event, fd: Fd): nat {
    match e
    case CloseClient => if s.phase == Closing(fd) then ArmedCount(s.epoll, fd) else 0
    case Dispatch =>
      if s.phase.Dispatching? && s.phase.batch != [] && s.phase.batch[0].Ready? then
        match s.phase.batch[0].kind
        case Hangup => if s.phase.batch[0].fd == fd then 1 else 0
        case Other => ItemCount(s.phase.batch, fd)
        case _ => 0
      else 0
    case AcceptFails => PhaseCount(s.phase, fd)
    case Fail(w) => if w in s.running && s.running[w].fd == fd then 1 else 0
    case _ => 0
  }

  /** The activities of a client are conserved: a step passes them on, except that accepting a client
      creates its first one and the steps above drop some. */
  lemma TokensStep(s: State, e: Event, fd: Fd)
    requires Consistent(s) && Enabled(s, e) && !Step(s, e).aborted
    requires Tokens(s, fd) <= 1
    ensures Tokens(Step(s, e), fd) == Tokens(s, fd) + (if e == Accept(fd) then 1 else 0) - Dropped(s, e, fd)
    ensures e == Accept(fd) ==> Tokens(s, fd) == 0
  {
    match e {
      case Take(w) => RunningCountSteps(s.running, w, s.queue[0], fd);
      case Rearm(w, mode) => RearmTokens(s, w, mode, fd);
      case Fail(w) => RunningCountSteps(s.running, w, Receive(fd), fd);
      case Dispatch => DispatchTokens(s, fd);
      case Deliver(batch) => ItemCountDistinct(batch, fd);
      case Accept(k) => AcceptTokens(s, k, fd);
      case _ =>
    }
  }

  lemma RearmTokens(s: State, w: Tid, mode: Mode, fd: Fd)
    requires w in s.running && s.running[w].fd in s.epoll && Tokens(s, fd) <= 1
    ensures Tokens(Rearmed(s, w, s.running[w].fd, mode), fd) == Tokens(s, fd)
  {
    RunningCountSteps(s.running, w, Receive(fd), fd);
  }

  lemma AcceptTokens(s: State, k: Fd, fd: Fd)
    requires Consistent(s) && Enabled(s, Accept(k))
    ensures k == fd ==> Tokens(s, fd) == 0
    ensures Tokens(Accepted(s, k), fd) == Tokens(s, fd) + if k == fd then 1 else 0
  {
    if ItemCount(s.phase.batch, fd) > 0 {
      ItemCountMember(s.phase.batch, fd);
    }
  }

  lemma KnownItem(s: State)
    requires Consistent(s) && Enabled(s, Dispatch)
    ensures s.phase.batch[0].fd in s.users && s.phase.batch[0].fd in s.timer
  {
    assert s.phase.batch[0] in s.phase.batch;
  }

  lemma EnqueueTokens(s: State, k: Fd, task: Task, fd: Fd)
    requires k in s.timer && task.fd == k
    ensures Tokens(Enqueue(s, k, task), fd) == Tokens(s, fd) + if k == fd then 1 else 0
  {
    TaskCountAppend(s.queue, task, fd);
  }

  lemma DispatchTokens(s: State, fd: Fd)
    requires Consistent(s) && Enabled(s, Dispatch) && !Step(s, Dispatch).aborted
    ensures Tokens(Step(s, Dispatch), fd) == Tokens(s, fd) - Dropped(s, Dispatch, fd)
  {
    KnownItem(s);
    var item, s' := s.phase.batch[0], s.(phase := Dispatching(s.phase.batch[1..]));
    assert Tokens(s, fd) == Tokens(s', fd) + if item.fd == fd then 1 else 0;
    match item.kind {
      case Readable => EnqueueTokens(s', item.fd, Receive(item.fd), fd);
      case Writable => EnqueueTokens(s', item.fd, Send(item.fd), fd);
      case _ =>
    }
  }

  // A state in which an earlier step has stopped the server is left out of the claims about activities.
  ghost predicate OneActivity(s: State) {
    s.aborted || forall fd :: Tokens(s, fd) <= 1
  }

  lemma OneActivityStep(s: State, e: Event)
    requires Consistent(s) && OneActivity(s) && Enabled(s, e)
    ensures OneActivity(Step(s, e))
  {
    if !Step(s, e).aborted {
      forall fd ensures Tokens(Step(s, e), fd) <= 1 {
        TokensStep(s, e, fd);
      }
    }
  }

  // The states that the events lead through.
  ghost predicate Path(s: State, states: seq<State>, es: seq<Event>) {
    && |states| == |es| + 1
    && states[0] == s
    && forall i :: 0 <= i < |es| ==> Enabled(states[i], es[i]) && states[i + 1] == Step(states[i], es[i])
  }

  // A run of the server.
  ghost predicate Run(aliveTime: Time, states: seq<State>, es: seq<Event>) {
    Path(Init(aliveTime), states, es)
  }

  /** One-shot exclusion: in every state of every run, at most one of these holds for a client: its socket is
      armed, an event of it is delivered but unhandled, a task of it is queued, a task of it is running. */
  lemma {:induction false} AlwaysOneActivity(aliveTime: Time, states: seq<State>, es: seq<Event>, i: nat)
    requires Run(aliveTime, states, es) && i < |states|
    ensures Consistent(states[i]) && OneActivity(states[i])
    decreases i
  {
    if i > 0 {
      AlwaysOneActivity(aliveTime, states, es, i - 1);
      ConsistentStep(states[i - 1], es[i - 1]);
      OneActivityStep(states[i - 1], es[i - 1]);
    }
  }

  /** No two workers ever use the same connection, and no event of a connection in use can be delivered. */
  lemma ConnectionsAreExclusive(aliveTime: Time, states: seq<State>, es: seq<Event>, i: nat, v: Tid, w: Tid)
    requires Run(aliveTime, states, es) && i < |states| && !states[i].aborted
    requires v in states[i].running && w in states[i].running && v != w
    ensures states[i].running[v].fd != states[i].running[w].fd
    ensures states[i].running[v].fd in states[i].epoll ==> !states[i].epoll[states[i].running[v].fd].armed
  {
    AlwaysOneActivity(aliveTime, states, es, i);
    var s, fd := states[i], states[i].running[v].fd;
    assert Tokens(s, fd) <= 1;
    assert {v} <= Workers(s.running, fd);
    CardinalityMonotone({v}, Workers(s.running, fd));
    if s.running[w].fd == fd {
      CardinalityMonotone({v, w}, Workers(s.running, fd));
    }
  }

  lemma {:induction false} CardinalityMonotone<X>(a: set<X>, b: set<X>)
    requires a <= b
    ensures |a| <= |b|
  {
    assert b == a + (b - a);
  }

  /** At the head of the loop, and everywhere else but inside the closing of a client, the tables of
      connections and of timers have the same keys. */
  lemma TablesAgree(aliveTime: Time, states: seq<State>, es: seq<Event>, i: nat)
    requires Run(aliveTime, states, es) && i < |states| && !states[i].phase.Closing?
    ensures states[i].users == states[i].timer.Keys == states[i].epoll.Keys
  {
    AlwaysOneActivity(aliveTime, states, es, i);
  }

  // ----- When the marking of a client finds its key

  /** A step stops the server exactly when a worker's task ends after its client has expired. */
  lemma AbortsIff(s: State, e: Event)
    requires Consistent(s) && Enabled(s, e)
    ensures Step(s, e).aborted <==>
            || (e.Fail? && s.running[e.w].fd !in s.timer)
            || (e.Rearm? && s.running[e.w].fd !in s.users)
  {
    if e.Dispatch? {
      assert s.phase.batch[0] in s.phase.batch;
    }
  }

  // No client expires while a task of it is queued or running.
  ghost predicate Punctual(states: seq<State>, es: seq<Event>)
    requires |states| == |es| + 1
  {
    forall i :: 0 <= i < |es| && es[i].ExpireTop? ==>
      TaskCount(states[i].queue, es[i].fd) + RunningCount(states[i].running, es[i].fd) == 0
  }

  ghost predicate TasksTimed(s: State) {
    !s.aborted && forall fd :: TaskCount(s.queue, fd) + RunningCount(s.running, fd) > 0 ==> fd in s.timer
  }

  lemma TasksTimedStep(s: State, e: Event)
    requires Consistent(s) && TasksTimed(s) && Enabled(s, e)
    requires e.ExpireTop? ==> TaskCount(s.queue, e.fd) + RunningCount(s.running, e.fd) == 0
    ensures TasksTimed(Step(s, e))
  {
    AbortsIff(s, e);
    if e.Rearm? || e.Fail? {
      assert e.w in Workers(s.running, s.running[e.w].fd);
      assert RunningCount(s.running, s.running[e.w].fd) > 0;
    }
    var s' := Step(s, e);
    forall fd | TaskCount(s'.queue, fd) + RunningCount(s'.running, fd) > 0
      ensures fd in s'.timer
    {
      match e {
        case Take(w) => RunningCountSteps(s.running, w, s.queue[0], fd);
        case Rearm(w, _) => RunningCountSteps(s.running, w, Receive(fd), fd);
        case Fail(w) => RunningCountSteps(s.running, w, Receive(fd), fd);
        case Dispatch => DispatchTimed(s, fd);
        case _ =>
      }
    }
  }

  lemma DispatchTimed(s: State, fd: Fd)
    requires Consistent(s) && TasksTimed(s) && Enabled(s, Dispatch)
    requires var s' := Step(s, Dispatch); TaskCount(s'.queue, fd) + RunningCount(s'.running, fd) > 0
    ensures fd in Step(s, Dispatch).timer
  {
    KnownItem(s);
    TaskCountAppend(s.queue, Receive(s.phase.batch[0].fd), fd);
    TaskCountAppend(s.queue, Send(s.phase.batch[0].fd), fd);
  }

  /** If tasks finish before their clients expire, every marking finds its key and nothing stops the server. */
  lemma {:induction false} PunctualRunsNeverAbort(aliveTime: Time, states: seq<State>, es: seq<Event>, i: nat)
    requires Run(aliveTime, states, es) && Punctual(states, es) && i < |states|
    ensures TasksTimed(states[i])
    decreases i
  {
    if i > 0 {
      AlwaysOneActivity(aliveTime, states, es, i - 1);
      PunctualRunsNeverAbort(aliveTime, states, es, i - 1);
      TasksTimedStep(states[i - 1], es[i - 1]);
    }
  }

  /** The tasks of a run find their clients in every state exactly when no client expires while a task of it is queued
      or running. */
  lemma PunctualExactly(aliveTime: Time, states: seq<State>, es: seq<Event>)
    requires Run(aliveTime, states, es)
    ensures Punctual(states, es) <==> forall i :: 0 <= i < |states| ==> TasksTimed(states[i])
  {
    if Punctual(states, es) {
      forall i | 0 <= i < |states|
        ensures TasksTimed(states[i])
      {
        PunctualRunsNeverAbort(aliveTime, states, es, i);
      }
    } else {
      var i :| 0 <= i < |es| && es[i].ExpireTop?
               && TaskCount(states[i].queue, es[i].fd) + RunningCount(states[i].running, es[i].fd) > 0;
      assert states[i + 1] == Expired(states[i], es[i].fd);
      assert !TasksTimed(states[i + 1]);
    }
  }

  lemma UnusedWorker(running: map<Tid, Task>) returns (w: Tid)
    ensures w !in running
  {
    var ws := running.Keys;
    w := 0;
    while ws != {}
      invariant forall v :: v in running && v !in ws ==> v < w
      decreases ws
    {
      var v :| v in ws;
      ws := ws - {v};
      w := if w <= v then v + 1 else w;
    }
  }

  // Once the client of a pending task has expired, workers may take the task and give the client up.
  lemma {:induction false} LateTaskAborts(s: State, fd: Fd) returns (states: seq<State>, es: seq<Event>)
    requires !s.aborted && fd !in s.timer && TaskCount(s.queue, fd) + RunningCount(s.running, fd) > 0
    ensures Path(s, states, es) && states[|es|].aborted
    decreases |s.queue|
  {
    if RunningCount(s.running, fd) > 0 {
      var w :| w in Workers(s.running, fd);
      states, es := [s, Step(s, Fail(w))], [Fail(w)];
    } else {
      var w := UnusedWorker(s.running);
      var s' := Step(s, Take(w));
      RunningCountSteps(s.running, w, s.queue[0], fd);
      states, es := LateTaskAborts(s', fd);
      PathFrom(s, Take(w), states, es);
      states, es := [s] + states, [Take(w)] + es;
    }
  }

  lemma PathFrom(s: State, e: Event, states: seq<State>, es: seq<Event>)
    requires Enabled(s, e) && Path(Step(s, e), states, es)
    ensures Path(s, [s] + states, [e] + es)
  {
  }

  lemma PathConcat(s: State, states: seq<State>, es: seq<Event>, states': seq<State>, es': seq<Event>)
    requires Path(s, states, es) && Path(states[|es|], states', es')
    ensures Path(s, states + states'[1..], es + es')
  {
    var all, events := states + states'[1..], es + es';
    assert forall i :: 0 <= i <= |es'| ==> all[|es| + i] == states'[i];
    forall i | 0 <= i < |events|
      ensures Enabled(all[i], events[i]) && all[i + 1] == Step(all[i], events[i])
    {
      if i >= |es| {
        assert events[i] == es'[i - |es|] && all[i] == states'[i - |es|] && all[i + 1] == states'[i - |es| + 1];
      }
    }
  }

  /** A run that is not punctual can end with the server stopped: after the expiry, the task only has to fail. */
  lemma LateRunsCanAbort(aliveTime: Time, states: seq<State>, es: seq<Event>, i: nat)
    returns (states': seq<State>, es': seq<Event>)
    requires Run(aliveTime, states, es) && i < |es| && es[i].ExpireTop?
    requires TaskCount(states[i].queue, es[i].fd) + RunningCount(states[i].running, es[i].fd) > 0
    ensures Run(aliveTime, states', es') && es[..i + 1] <= es' && states'[|es'|].aborted
  {
    assert Enabled(states[i], es[i]) && states[i + 1] == Expired(states[i], es[i].fd);
    states', es' := LateTaskAborts(states[i + 1], es[i].fd);
    PathConcat(Init(aliveTime), states[..i + 2], es[..i + 1], states', es');
    states', es' := states[..i + 2] + states'[1..], es[..i + 1] + es';
  }

  // ----- No client is forgotten

  ghost predicate Served(s: State, fd: Fd) {
    s.phase == Closing(fd) || Tokens(s, fd) == 1 || (fd in s.timer && s.timer[fd].expiration <= s.now)
  }

  // Each client has an activity that will go on with it, or is about to be closed.
  ghost predicate NobodyForgotten(s: State) {
    forall fd :: fd in s.users ==> Served(s, fd)
  }

  // The step leaves the dispatch loop by an exception.
  ghost predicate Throws(s: State, e: Event) {
    e.AcceptFails? || (e.Dispatch? && s.phase.Dispatching? && s.phase.batch != []
                       && s.phase.batch[0].Ready? && s.phase.batch[0].kind.Other?)
  }

  // The step throws at most when the clients whose events it drops are due anyway.
  ghost predicate DropsOnlyDue(s: State, e: Event) {
    Throws(s, e) ==>
      forall fd :: fd in s.users && PhaseCount(s.phase, fd) > 0 ==> fd in s.timer && s.timer[fd].expiration <= s.now
  }

  lemma ServedStep(s: State, e: Event, fd: Fd)
    requires Consistent(s) && Enabled(s, e) && !Step(s, e).aborted && Tokens(s, fd) <= 1
    requires fd in Step(s, e).users && (fd in s.users ==> Served(s, fd))
    ensures Served(Step(s, e), fd) <==>
            (Throws(s, e) && PhaseCount(s.phase, fd) > 0 ==> s.timer[fd].expiration <= s.now)
  {
    match e {
      case Dispatch => DispatchServed(s, fd);
      case AcceptFails => AcceptFailsServed(s, fd);
      case _ => QuietServed(s, e, fd);
    }
  }

  lemma QuietServed(s: State, e: Event, fd: Fd)
    requires Consistent(s) && Enabled(s, e) && !Step(s, e).aborted && Tokens(s, fd) <= 1
    requires !e.Dispatch? && !e.AcceptFails?
    requires fd in Step(s, e).users && (fd in s.users ==> Served(s, fd))
    ensures Served(Step(s, e), fd)
  {
    TokensStep(s, e, fd);
  }

  lemma AcceptFailsServed(s: State, fd: Fd)
    requires Consistent(s) && Enabled(s, AcceptFails) && Tokens(s, fd) <= 1
    requires fd in s.users && Served(s, fd)
    ensures Served(Step(s, AcceptFails), fd) <==> (PhaseCount(s.phase, fd) > 0 ==> s.timer[fd].expiration <= s.now)
  {
    TokensStep(s, AcceptFails, fd);
    if PhaseCount(s.phase, fd) > 0 {
      ItemCountMember(s.phase.batch, fd);
    }
  }

  lemma DispatchServed(s: State, fd: Fd)
    requires Consistent(s) && Enabled(s, Dispatch) && !Step(s, Dispatch).aborted && Tokens(s, fd) <= 1
    requires fd in s.users && Served(s, fd)
    ensures Served(Step(s, Dispatch), fd) <==>
            (Throws(s, Dispatch) && PhaseCount(s.phase, fd) > 0 ==> s.timer[fd].expiration <= s.now)
  {
    TokensStep(s, Dispatch, fd);
    assert s.phase.batch[0] in s.phase.batch;
    assert s.phase.batch[0].fd == fd ==> PhaseCount(s.phase, fd) > 0;
  }

  /** An exception in the dispatch loop loses the events that were not handled yet: it keeps every client served
      exactly when each client in the rest of the batch is already due. No other step forgets a client. */
  lemma NobodyForgottenStep(s: State, e: Event)
    requires Consistent(s) && OneActivity(s) && Enabled(s, e) && NobodyForgotten(s) && !Step(s, e).aborted
    ensures NobodyForgotten(Step(s, e)) <==> DropsOnlyDue(s, e)
  {
    forall fd | fd in Step(s, e).users
      ensures Served(Step(s, e), fd) <==> (Throws(s, e) && PhaseCount(s.phase, fd) > 0 ==> s.timer[fd].expiration <= s.now)
    {
      ServedStep(s, e, fd);
    }
  }

  lemma NextForgets(aliveTime: Time, states: seq<State>, es: seq<Event>, i: nat)
    requires Run(aliveTime, states, es) && i < |es| && !states[i + 1].aborted && NobodyForgotten(states[i])
    ensures NobodyForgotten(states[i + 1]) <==> DropsOnlyDue(states[i], es[i])
  {
    AlwaysOneActivity(aliveTime, states, es, i);
    NobodyForgottenStep(states[i], es[i]);
  }

  lemma {:induction false} NobodyEverForgotten(aliveTime: Time, states: seq<State>, es: seq<Event>, i: nat)
    requires Run(aliveTime, states, es) && i < |states| && !states[i].aborted
    requires forall j :: 0 <= j < i ==> DropsOnlyDue(states[j], es[j])
    ensures NobodyForgotten(states[i])
    decreases i
  {
    if i > 0 {
      assert Enabled(states[i - 1], es[i - 1]);
      NobodyEverForgotten(aliveTime, states, es, i - 1);
      assert DropsOnlyDue(states[i - 1], es[i - 1]);
      NextForgets(aliveTime, states, es, i - 1);
    }
  }

  /** In a run that does not stop the server, nobody is ever forgotten if and only if each exception in the dispatch loop
      drops only events of clients that are due already. */
  lemma NobodyForgottenExactly(aliveTime: Time, states: seq<State>, es: seq<Event>)
    requires Run(aliveTime, states, es) && !states[|es|].aborted
    ensures (forall i :: 0 <= i < |states| ==> NobodyForgotten(states[i]))
            <==> forall i :: 0 <= i < |es| ==> DropsOnlyDue(states[i], es[i])
  {
    forall i | 0 <= i < |es|
      ensures !states[i].aborted
    {
      assert Enabled(states[i], es[i]);
    }
    if forall i :: 0 <= i < |es| ==> DropsOnlyDue(states[i], es[i]) {
      forall i | 0 <= i < |states|
        ensures NobodyForgotten(states[i])
      {
        NobodyEverForgotten(aliveTime, states, es, i);
      }
    }
    if forall i :: 0 <= i < |states| ==> NobodyForgotten(states[i]) {
      forall i | 0 <= i < |es|
        ensures DropsOnlyDue(states[i], es[i])
      {
        NextForgets(aliveTime, states, es, i);
      }
    }
  }

  ghost predicate EverybodyActive(s: State) {
    forall fd :: fd in s.users ==> Tokens(s, fd) == 1
  }

  lemma EndTickServesEverybody(s: State)
    requires Consistent(s) && OneActivity(s) && NobodyForgotten(s) && Enabled(s, EndTick)
    ensures EverybodyActive(Step(s, EndTick))
  {
    forall fd | fd in s.users
      ensures Tokens(Step(s, EndTick), fd) == 1
    {
      assert Served(s, fd);
      TokensStep(s, EndTick, fd);
    }
  }

  /** When the main thread stops closing clients and starts waiting for events, and no exception has dropped an event
      of a client that was not due, every client has exactly one activity: none is left with a silent socket. */
  lemma WaitingServesEverybody(aliveTime: Time, states: seq<State>, es: seq<Event>, i: nat)
    requires Run(aliveTime, states, es) && i < |es| && es[i].EndTick?
    requires forall j :: 0 <= j < i ==> DropsOnlyDue(states[j], es[j])
    ensures EverybodyActive(states[i + 1])
  {
    assert Enabled(states[i], es[i]) && states[i + 1] == Step(states[i], es[i]);
    NobodyEverForgotten(aliveTime, states, es, i);
    AlwaysOneActivity(aliveTime, states, es, i);
    EndTickServesEverybody(states[i]);
  }

  // ----- The server itself

  /** The tables of the server. The timer is the real one; its callbacks are identified by the number zero and
      remove the key they are called with. Each method is one step, named in its contract. */
  class WebServer {
    const aliveTime: Time
    const timer: HeapTimer<Fd>
    var users: set<Fd>
    var epoll: map<Fd, Registration>
    var queue: seq<Task>
    var now: Time
    ghost var phase: Phase
    ghost var running: map<Tid, Task>
    ghost var aborted: bool
    ghost var active: map<Fd, Time>
    ghost var marked: set<Fd>

    ghost predicate Valid()
      reads this, timer
    {
      timer.Valid()
    }

    ghost function View(): State
      requires Valid()
      reads this, timer
    {
      State(now, aliveTime, phase, users, timer.model, epoll, queue, running, aborted, active, marked)
    }

    constructor (aliveTime: Time)
      ensures Valid() && fresh(timer) && View() == Init(aliveTime)
    {
      this.aliveTime := aliveTime;
      timer := new HeapTimer();
      users, epoll, queue, now := {}, map[], [], 0;
      phase, running, aborted, active, marked := Ticking, map[], false, map[], {};
    }

    method MarkClientAsToBeClosed(fd: Fd)
      requires Valid()
      modifies timer, this`aborted, this`marked
      ensures Valid() && View() == Mark(old(View()), fd)
    {
      var found := timer.Adjust(fd, now, None);
      aborted := aborted || !found;
      marked := if found then marked + {fd} else marked;
    }

    method ExtendClientAliveTime(fd: Fd) returns (alive: bool)
      requires Valid()
      modifies timer, this`active
      ensures Valid() && alive == (fd in old(View()).timer)
      ensures View() == if alive then Extended(old(View()), fd) else old(View())
    {
      if timer.Contain(fd) {
        var _ := timer.Adjust(fd, now + aliveTime, None);
        active := active[fd := now];
        return true;
      }
      return false;
    }

    method OnReceiveEvent(fd: Fd)
      requires Valid()
      modifies this`queue, this`active, timer
      ensures Valid() && View() == Enqueue(old(View()), fd, Receive(fd))
    {
      var alive := ExtendClientAliveTime(fd);
      if alive {
        queue := queue + [Receive(fd)];
      }
    }

    method OnSendEvent(fd: Fd)
      requires Valid()
      modifies this`queue, this`active, timer
      ensures Valid() && View() == Enqueue(old(View()), fd, Send(fd))
    {
      var alive := ExtendClientAliveTime(fd);
      if alive {
        queue := queue + [Send(fd)];
      }
    }

    // The dispatch of one event of a client, taken off the batch; false when it throws.
    method OnEvent(fd: Fd, kind: Kind) returns (ok: bool)
      requires Valid()
      modifies this, timer
      ensures Valid() && View() == DispatchItem(old(View()), fd, kind)
      ensures ok == !kind.Other?
    {
      match kind {
        case Hangup => MarkClientAsToBeClosed(fd);
        case Readable => OnReceiveEvent(fd);
        case Writable => OnSendEvent(fd);
        case Other => phase := Ticking;
      }
      ok := !kind.Other?;
    }

    method AddClient(fd: Fd)
      requires Valid()
      modifies this`epoll, this`users, this`active, timer
      ensures Valid() && View() == Accepted(old(View()), fd)
    {
      Register(fd);
      PushTimer(fd, Callback(0, [fd]));
    }

    // The other tables of an accepted client.
    method Register(fd: Fd)
      requires Valid()
      modifies this`epoll, this`users, this`active
      ensures Valid()
      ensures View() == old(View()).(epoll := old(epoll)[fd := Registration(In, true)], users := old(users) + {fd},
                                     active := old(active)[fd := now])
    {
      epoll := epoll[fd := Registration(In, true)];
      users := users + {fd};
      active := active[fd := now];
    }

    // The timer of an accepted client.
    method PushTimer(fd: Fd, callback: Callback<Fd>)
      requires Valid()
      modifies timer
      ensures Valid()
      ensures View() == old(View()).(timer := old(timer.model)[fd := Entry(now + aliveTime, callback)])
    {
      timer.Push(fd, now + aliveTime, callback);
    }

    // The first half of an iteration of `Tick`: pop the root when it has expired.
    method ExpireRoot() returns (expired: Option<Fd>)
      requires Valid() && phase.Ticking? && !aborted
      modifies this`phase, timer
      ensures Valid()
      ensures match expired
              case Some(fd) => Enabled(old(View()), ExpireTop(fd)) && View() == Expired(old(View()), fd)
              case None => Enabled(old(View()), EndTick) && View() == old(View()).(phase := Waiting)
    {
      RootIsLeast(timer.nodes);
      if timer.nodes != [] && timer.nodes[0].expiration <= now {
        assert timer.nodes[0].key in timer.model;
        var fd := timer.Pop();
        phase := Closing(fd);
        return Some(fd);
      }
      phase := Waiting;
      return None;
    }

    // Removing the timer of a client that has none changes nothing.
    method RemoveTimer(fd: Fd)
      requires Valid() && fd !in timer.model
      modifies timer
      ensures Valid() && timer.model == old(timer.model)
    {
      var removed := timer.Remove(fd);
      assert !removed;
    }

    // The second half: the callback of the popped client finds its connection, and its timer is gone already.
    method CloseClientOf(fd: Fd)
      requires Valid() && Consistent(View()) && phase == Closing(fd)
      modifies this`epoll, this`users, this`marked, this`phase, timer
      ensures Valid() && fd in old(View()).users && fd !in old(timer.model)
      ensures View() == Closed(old(View()), fd)
    {
      epoll := epoll - {fd};
      RemoveTimer(fd);
      users := users - {fd};
      marked := marked - {fd};
      phase := Ticking;
    }

    // The end of a worker's task that goes on with its client.
    method RearmClient(ghost w: Tid, fd: Fd, mode: Mode)
      requires Valid()
      modifies this
      ensures Valid() && View() == Rearmed(old(View()), w, fd, mode)
    {
      if fd in epoll {
        epoll := epoll[fd := Registration(mode, true)];
        running := running - {w};
      } else {
        aborted := true;
      }
    }

    // The end of a worker's task that gives its client up.
    method GiveUpClient(ghost w: Tid, fd: Fd)
      requires Valid()
      modifies this, timer
      ensures Valid() && View() == GivenUp(old(View()), w, fd)
    {
      MarkClientAsToBeClosed(fd);
      running := running - {w};
    }
  }
}