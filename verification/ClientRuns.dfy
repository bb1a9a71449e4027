/** Runs of the web server: two that end badly, and two as they should be. */
module ClientRuns {
  import opened CondVars
  import opened HeapTimers
  import opened WebServers

  const CLIENT: Fd := 5

  // The server with one client, whose alive time is one and which was accepted at time zero.
  function Alone(phase: Phase, armed: bool): State {
    State(0, 1, phase, {CLIENT}, map[CLIENT := Entry(1, Callback(0, [CLIENT]))], map[CLIENT := Registration(In, armed)],
          [], map[], false, map[CLIENT := 0], {})
  }

  ghost predicate Leads(s: State, e: Event, s': State) {
    Enabled(s, e) && Step(s, e) == s'
  }

  lemma AcceptStarts()
    ensures Leads(Init(1), EndTick, Init(1).(phase := Waiting))
    ensures Leads(Init(1).(phase := Waiting), Deliver([Listen]), Init(1).(phase := Dispatching([Listen])))
    ensures Leads(Init(1).(phase := Dispatching([Listen])), Accept(CLIENT), Alone(Dispatching([Listen]), true))
  {
    assert Disarm(map[], [Listen]) == map[];
  }

  lemma AcceptEnds()
    ensures Leads(Alone(Dispatching([Listen]), true), AcceptDone, Alone(Dispatching([]), true))
    ensures Leads(Alone(Dispatching([]), true), EndBatch, Alone(Ticking, true))
    ensures Leads(Alone(Ticking, true), EndTick, Alone(Waiting, true))
  {
    assert [Listen][1..] == [];
  }

  // From the start to the waiting for the events of the accepted client.
  lemma AcceptRun(states: seq<State>, es: seq<Event>)
    requires Path(Alone(Waiting, true), states, es)
    ensures exists all: seq<State>, events: seq<Event> ::
              Run(1, all, events) && |events| >= |es| && all[|events|] == states[|es|]
  {
    AcceptStarts();
    AcceptEnds();
    var all, events := states, es;
    all, events := Earlier(Alone(Ticking, true), EndTick, all, events);
    all, events := Earlier(Alone(Dispatching([]), true), EndBatch, all, events);
    all, events := Earlier(Alone(Dispatching([Listen]), true), AcceptDone, all, events);
    all, events := Earlier(Init(1).(phase := Dispatching([Listen])), Accept(CLIENT), all, events);
    all, events := Earlier(Init(1).(phase := Waiting), Deliver([Listen]), all, events);
    all, events := Earlier(Init(1), EndTick, all, events);
  }

  lemma Earlier(s: State, e: Event, states: seq<State>, es: seq<Event>) returns (all: seq<State>, events: seq<Event>)
    requires Enabled(s, e) && Path(Step(s, e), states, es)
    ensures Path(s, all, events) && |events| == |es| + 1 && all[|events|] == states[|es|]
  {
    PathFrom(s, e, states, es);
    all, events := [s] + states, [e] + es;
  }

  lemma Delivered(batch: seq<Item>)
    requires batch == [Ready(CLIENT, Readable)] || batch == [Listen, Ready(CLIENT, Readable)]
    ensures Leads(Alone(Waiting, true), Deliver(batch), Alone(Dispatching(batch), false))
  {
    var before, after := map[CLIENT := Registration(In, true)], map[CLIENT := Registration(In, false)];
    assert Disarm(before, batch) == after by {
      assert batch[|batch| - 1].fd == CLIENT;
    }
  }

  // The client with its task running, at the end of its alive time.
  function Late(now: Time): State {
    Alone(Ticking, false).(now := now, running := map[0 := Receive(CLIENT)])
  }

  lemma TaskStarts()
    ensures var batch := [Ready(CLIENT, Readable)];
            Leads(Alone(Dispatching(batch), false), Dispatch, Alone(Dispatching([]), false).(queue := [Receive(CLIENT)]))
    ensures Leads(Alone(Dispatching([]), false).(queue := [Receive(CLIENT)]), EndBatch,
                  Alone(Ticking, false).(queue := [Receive(CLIENT)]))
    ensures Leads(Alone(Ticking, false).(queue := [Receive(CLIENT)]), Take(0), Late(0))
  {
    var item, task := Ready(CLIENT, Readable), Receive(CLIENT);
    assert [item][1..] == [] && [task][1..] == [] && [] + [task] == [task];
  }

  lemma TaskIsLate()
    ensures Leads(Late(0), Advance(1), Late(1))
    ensures Leads(Late(1), ExpireTop(CLIENT), Expired(Late(1), CLIENT))
    ensures Leads(Expired(Late(1), CLIENT), Fail(0), GivenUp(Expired(Late(1), CLIENT), 0, CLIENT))
    ensures GivenUp(Expired(Late(1), CLIENT), 0, CLIENT).aborted
  {
  }

  /** A client may expire while its task runs; when the task then fails, the server stops. */
  lemma LateTaskRun()
    ensures exists states: seq<State>, es: seq<Event> :: Run(1, states, es) && states[|es|].aborted
  {
    var batch := [Ready(CLIENT, Readable)];
    var queued := [Receive(CLIENT)];
    Delivered(batch);
    TaskStarts();
    TaskIsLate();
    var end := GivenUp(Expired(Late(1), CLIENT), 0, CLIENT);
    var all, events := [end], [];
    all, events := Earlier(Expired(Late(1), CLIENT), Fail(0), all, events);
    all, events := Earlier(Late(1), ExpireTop(CLIENT), all, events);
    all, events := Earlier(Late(0), Advance(1), all, events);
    all, events := Earlier(Alone(Ticking, false).(queue := queued), Take(0), all, events);
    all, events := Earlier(Alone(Dispatching([]), false).(queue := queued), EndBatch, all, events);
    all, events := Earlier(Alone(Dispatching(batch), false), Dispatch, all, events);
    all, events := Earlier(Alone(Waiting, true), Deliver(batch), all, events);
    AcceptRun(all, events);
  }

  lemma Forgotten()
    ensures !NobodyForgotten(Alone(Ticking, false))
  {
    assert Tokens(Alone(Ticking, false), CLIENT) == 0;
    assert CLIENT in Alone(Ticking, false).users && !Served(Alone(Ticking, false), CLIENT);
  }

  /** An exception while accepting loses the event of a client that came with it: the client is not due and has no
      activity, so its socket stays silent. */
  lemma ForgetfulRun()
    ensures exists states: seq<State>, es: seq<Event> ::
              Run(1, states, es) && !states[|es|].aborted && !NobodyForgotten(states[|es|])
  {
    var batch := [Listen, Ready(CLIENT, Readable)];
    Delivered(batch);
    Forgotten();
    var all, events := [Alone(Ticking, false)], [];
    all, events := Earlier(Alone(Dispatching(batch), false), AcceptFails, all, events);
    all, events := Earlier(Alone(Waiting, true), Deliver(batch), all, events);
    AcceptRun(all, events);
  }

  // ----- Runs as they should be

  // The client is registered for what it is asked to do next; its time has been renewed at time zero.
  function With(phase: Phase, registration: Registration, queue: seq<Task>, running: map<Tid, Task>): State {
    Alone(phase, true).(epoll := map[CLIENT := registration], queue := queue, running := running)
  }

  // Which event and which task belong to a registration.
  predicate Belongs(mode: Mode, kind: Kind, task: Task) {
    if mode.In? then kind == Readable && task == Receive(CLIENT) else kind == Writable && task == Send(CLIENT)
  }

  lemma EventIsDelivered(mode: Mode, kind: Kind, task: Task)
    requires Belongs(mode, kind, task)
    ensures Leads(With(Waiting, Registration(mode, true), [], map[]), Deliver([Ready(CLIENT, kind)]),
                  With(Dispatching([Ready(CLIENT, kind)]), Registration(mode, false), [], map[]))
  {
    var batch := [Ready(CLIENT, kind)];
    assert Disarm(map[CLIENT := Registration(mode, true)], batch) == map[CLIENT := Registration(mode, false)] by {
      assert batch[0].fd == CLIENT;
    }
  }

  lemma EventIsDispatched(mode: Mode, kind: Kind, task: Task)
    requires Belongs(mode, kind, task)
    ensures Leads(With(Dispatching([Ready(CLIENT, kind)]), Registration(mode, false), [], map[]), Dispatch,
                  With(Dispatching([]), Registration(mode, false), [task], map[]))
  {
    assert [Ready(CLIENT, kind)][1..] == [] && [] + [task] == [task];
  }

  lemma TaskIsTaken(mode: Mode, task: Task)
    ensures var silent := Registration(mode, false);
            && Leads(With(Dispatching([]), silent, [task], map[]), EndBatch, With(Ticking, silent, [task], map[]))
            && Leads(With(Ticking, silent, [task], map[]), Take(0), With(Ticking, silent, [], map[0 := task]))
  {
    assert [task][1..] == [];
  }

  // The task asks for the next event, and the main thread waits for it.
  lemma TaskGoesOn(task: Task, mode: Mode, next: Mode)
    requires task.fd == CLIENT
    ensures Leads(With(Ticking, Registration(mode, false), [], map[0 := task]), Rearm(0, next),
                  With(Ticking, Registration(next, true), [], map[]))
    ensures Leads(With(Ticking, Registration(next, true), [], map[]), EndTick,
                  With(Waiting, Registration(next, true), [], map[]))
  {
    assert map[0 := task] - {0} == map[];
  }

  // One round of the loop in which the client's event is served by a task that asks for the next one.
  lemma Round(mode: Mode, next: Mode, states: seq<State>, es: seq<Event>) returns (all: seq<State>, events: seq<Event>)
    requires Path(With(Waiting, Registration(next, true), [], map[]), states, es)
    ensures Path(With(Waiting, Registration(mode, true), [], map[]), all, events)
    ensures |events| == |es| + 6 && all[|events|] == states[|es|]
  {
    var (kind, task) := if mode.In? then (Readable, Receive(CLIENT)) else (Writable, Send(CLIENT));
    var silent := Registration(mode, false);
    EventIsDelivered(mode, kind, task);
    EventIsDispatched(mode, kind, task);
    TaskIsTaken(mode, task);
    TaskGoesOn(task, mode, next);
    all, events := Earlier(With(Ticking, Registration(next, true), [], map[]), EndTick, states, es);
    all, events := Earlier(With(Ticking, silent, [], map[0 := task]), Rearm(0, next), all, events);
    all, events := Earlier(With(Ticking, silent, [task], map[]), Take(0), all, events);
    all, events := Earlier(With(Dispatching([]), silent, [task], map[]), EndBatch, all, events);
    all, events := Earlier(With(Dispatching([Ready(CLIENT, kind)]), silent, [], map[]), Dispatch, all, events);
    all, events := Earlier(With(Waiting, Registration(mode, true), [], map[]), Deliver([Ready(CLIENT, kind)]), all, events);
  }

  /** A client is accepted, its request received, its reply sent, and the server waits for its next request. */
  lemma ServedRun()
    ensures exists states: seq<State>, es: seq<Event> :: Run(1, states, es) && states[|es|] == Alone(Waiting, true)
                                                         && |es| >= 12
  {
    var all, events := [Alone(Waiting, true)], [];
    all, events := Round(Out, In, all, events);
    all, events := Round(In, Out, all, events);
    AcceptRun(all, events);
  }

  // The client hangs up, and is closed in the next round of the loop.
  lemma HangupSteps()
    ensures var batch := [Ready(CLIENT, Hangup)];
            var marked := Mark(Alone(Dispatching([]), false), CLIENT);
            && Leads(Alone(Waiting, true), Deliver(batch), Alone(Dispatching(batch), false))
            && Leads(Alone(Dispatching(batch), false), Dispatch, marked)
            && Leads(marked, EndBatch, marked.(phase := Ticking))
            && Leads(marked.(phase := Ticking), ExpireTop(CLIENT), Expired(marked.(phase := Ticking), CLIENT))
            && Leads(Expired(marked.(phase := Ticking), CLIENT), CloseClient,
                     Closed(Expired(marked.(phase := Ticking), CLIENT), CLIENT))
  {
    var batch := [Ready(CLIENT, Hangup)];
    assert Disarm(map[CLIENT := Registration(In, true)], batch) == map[CLIENT := Registration(In, false)] by {
      assert batch[0].fd == CLIENT;
    }
    assert batch[1..] == [];
  }

  /** A client that hangs up is closed, and nothing is left of it. */
  lemma HangupRun()
    ensures exists states: seq<State>, es: seq<Event> ::
              Run(1, states, es) && !states[|es|].aborted
              && states[|es|].users == {} && states[|es|].epoll == map[] && states[|es|].timer == map[] && |es| >= 5
  {
    HangupSteps();
    var batch := [Ready(CLIENT, Hangup)];
    var marked := Mark(Alone(Dispatching([]), false), CLIENT);
    var ticking := marked.(phase := Ticking);
    var expired := Expired(ticking, CLIENT);
    var end := Closed(expired, CLIENT);
    assert end.users == {} && end.epoll == map[] && end.timer == map[] && !end.aborted;
    var all, events := [end], [];
    all, events := Earlier(expired, CloseClient, all, events);
    all, events := Earlier(ticking, ExpireTop(CLIENT), all, events);
    all, events := Earlier(marked, EndBatch, all, events);
    all, events := Earlier(Alone(Dispatching(batch), false), Dispatch, all, events);
    all, events := Earlier(Alone(Waiting, true), Deliver(batch), all, events);
    AcceptRun(all, events);
  }
}
