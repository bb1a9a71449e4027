/**
  The bounded blocking deque as a transition system. Every critical section, from taking
  the mutex to releasing it, is one step. Threads may be woken up spuriously, time out,
  and take the mutex ahead of notified threads.
 */
module BlockDeques {
  import opened CondVars
  import opened Wrappers

  // A call in progress: `Pop`, which may have a time-out that may have elapsed, or `PushBack` / `PushFront`.
  datatype Call<+T> =
    | Popping(timed: bool, elapsed: bool)
    | Pushing(item: T, front: bool)

  // `ready` threads are in a call and contend for the mutex. The three sequences are the history.
  datatype State<+T> = State(
    capacity: nat,
    deq: seq<T>,
    closed: bool,
    calls: map<Tid, Call<T>>,
    ready: set<Tid>,
    consumers: CondVar,
    producers: CondVar,
    pushed: seq<T>,
    popped: seq<T>,
    discarded: seq<T>)

  datatype Event<+T> =
    | Enter(t: Tid, call: Call<T>)   // a thread calls an operation
    | Section(t: Tid, pick: Tid)     // a thread takes the mutex and runs until it waits or returns
    | Spurious(t: Tid)               // a waiting thread wakes up without a notification
    | TimeOut(t: Tid)                // the time-out of a `Pop` elapses, even if it has been woken up already
    | Flush(pick: Tid)
    | Clear
    | Close

  function Init<T>(capacity: nat): State<T> {
    State(capacity, [], false, map[], {}, CondVar({}, {}), CondVar({}, {}), [], [], [])
  }

  // The thread is able to take the mutex.
  predicate Runnable<T>(s: State<T>, t: Tid) {
    t in s.calls && (t in s.ready || t in s.consumers.notified || t in s.producers.notified)
  }

  ghost predicate Enabled<T>(s: State<T>, e: Event<T>) {
    match e
    case Enter(t, call) => t !in s.calls && (call.Popping? ==> !call.elapsed)
    case Section(t, pick) =>
      Runnable(s, t) && if s.calls[t].Popping? then s.producers.CanPick(pick) else s.consumers.CanPick(pick)
    case Spurious(t) => t in s.consumers.waiting || t in s.producers.waiting
    case TimeOut(t) => t in s.calls && s.calls[t].Popping? && s.calls[t].timed
    case Flush(pick) => s.consumers.CanPick(pick)
    case Clear => true
    case Close => true
  }

  // The thread returns from its call.
  function Return<T>(s: State<T>, t: Tid): State<T> {
    s.(calls := s.calls - {t}, ready := s.ready - {t},
       consumers := s.consumers.Leave(t), producers := s.producers.Leave(t))
  }

  function PopSection<T>(s: State<T>, t: Tid, elapsed: bool, pick: Tid): State<T> {
    if s.deq == [] && !s.closed && !elapsed then
      s.(ready := s.ready - {t}, consumers := s.consumers.Wait(t))
    else if s.deq == [] || s.closed then
      Return(s, t)
    else
      var r := Return(s, t);
      r.(deq := s.deq[1..], popped := s.popped + [s.deq[0]], producers := r.producers.NotifyOne(pick))
  }

  function PushSection<T>(s: State<T>, t: Tid, item: T, front: bool, pick: Tid): State<T> {
    if |s.deq| >= s.capacity then
      s.(ready := s.ready - {t}, producers := s.producers.Wait(t))
    else
      var r := Return(s, t);
      r.(deq := if front then [item] + s.deq else s.deq + [item],
         pushed := s.pushed + [item],
         consumers := r.consumers.NotifyOne(pick))
  }

  function Step<T>(s: State<T>, e: Event<T>): State<T> {
    match e
    case Enter(t, call) => s.(calls := s.calls[t := call], ready := s.ready + {t})
    case Section(t, pick) =>
      if t !in s.calls then s
      else (match s.calls[t]
        case Popping(_, elapsed) => PopSection(s, t, elapsed, pick)
        case Pushing(item, front) => PushSection(s, t, item, front, pick))
    case Spurious(t) =>
      s.(ready := s.ready + {t}, consumers := s.consumers.Leave(t), producers := s.producers.Leave(t))
    case TimeOut(t) =>
      s.(ready := if t in s.consumers.waiting then s.ready + {t} else s.ready,
         consumers := s.consumers.WakeUp(t), calls := s.calls[t := Popping(true, true)])
    case Flush(pick) => s.(consumers := s.consumers.NotifyOne(pick))
    case Clear => s.(deq := [], discarded := s.discarded + s.deq)
    case Close =>
      s.(deq := [], discarded := s.discarded + s.deq, closed := true,
         consumers := s.consumers.NotifyAll(), producers := s.producers.NotifyAll())
  }

  // ----- Runs

  function Exec<T>(s: State<T>, es: seq<Event<T>>): State<T> {
    if es == [] then s else Step(Exec(s, es[..|es| - 1]), es[|es| - 1])
  }

  ghost predicate Legal<T>(s: State<T>, es: seq<Event<T>>) {
    es == [] || (Legal(s, es[..|es| - 1]) && Enabled(Exec(s, es[..|es| - 1]), es[|es| - 1]))
  }

  // Each thread in a call is in exactly one place, and waits at the variable of its operation.
  ghost predicate Placed<T>(s: State<T>) {
    && s.consumers.Valid() && s.producers.Valid()
    && s.ready !! s.consumers.waiting && s.ready !! s.consumers.notified
    && s.ready !! s.producers.waiting && s.ready !! s.producers.notified
    && (forall t :: t in s.calls <==>
          t in s.ready || t in s.consumers.waiting || t in s.consumers.notified
          || t in s.producers.waiting || t in s.producers.notified)
    && (forall t :: t in s.consumers.waiting || t in s.consumers.notified ==> t in s.calls && s.calls[t].Popping?)
    && (forall t :: t in s.producers.waiting || t in s.producers.notified ==> t in s.calls && s.calls[t].Pushing?)
  }

  // If a consumer waits un-notified, every queued item has a notified consumer to take it.
  ghost predicate NoLostItem<T>(s: State<T>) {
    s.consumers.waiting != {} ==> |s.deq| <= |s.consumers.notified| && !s.closed
  }

  // If a producer waits un-notified, every free slot has a notified producer to fill it.
  ghost predicate NoLostSlot<T>(s: State<T>) {
    s.producers.waiting != {} ==> s.capacity - |s.deq| <= |s.producers.notified|
  }

  // Nothing is created, duplicated or lost, and the bound is respected.
  ghost predicate Conserved<T>(s: State<T>) {
    && |s.deq| <= s.capacity
    && Balanced(s.pushed, s.popped, s.deq, s.discarded)
  }

  ghost predicate Balanced<T>(pushed: seq<T>, popped: seq<T>, deq: seq<T>, discarded: seq<T>) {
    multiset(pushed) == multiset(popped) + multiset(deq) + multiset(discarded)
  }

  lemma PlacedStep<T>(s: State<T>, e: Event<T>)
    requires Placed(s) && Enabled(s, e)
    ensures Placed(Step(s, e))
  {
  }

  lemma NoLostItemStep<T>(s: State<T>, e: Event<T>)
    requires Placed(s) && Enabled(s, e) && NoLostItem(s)
    ensures NoLostItem(Step(s, e))
  {
  }

  /** Only `Clear` can lose slots: it frees the whole deque without notifying a producer, so it keeps the
      property exactly when no producer waits un-notified or there are enough notified ones. */
  lemma NoLostSlotStep<T>(s: State<T>, e: Event<T>)
    requires Placed(s) && Enabled(s, e) && NoLostSlot(s)
    ensures NoLostSlot(Step(s, e)) <==>
            (e.Clear? ==> s.producers.waiting == {} || s.capacity <= |s.producers.notified|)
  {
  }

  lemma BalancedPop<T>(pushed: seq<T>, popped: seq<T>, deq: seq<T>, discarded: seq<T>)
    requires Balanced(pushed, popped, deq, discarded) && deq != []
    ensures Balanced(pushed, popped + [deq[0]], deq[1..], discarded)
  {
    assert deq == [deq[0]] + deq[1..];
  }

  lemma BalancedPush<T>(pushed: seq<T>, popped: seq<T>, deq: seq<T>, discarded: seq<T>, item: T)
    requires Balanced(pushed, popped, deq, discarded)
    ensures Balanced(pushed + [item], popped, deq + [item], discarded)
    ensures Balanced(pushed + [item], popped, [item] + deq, discarded)
  {
  }

  lemma BalancedDiscard<T>(pushed: seq<T>, popped: seq<T>, deq: seq<T>, discarded: seq<T>)
    requires Balanced(pushed, popped, deq, discarded)
    ensures Balanced(pushed, popped, [], discarded + deq)
  {
  }

  lemma ConservedStep<T>(s: State<T>, e: Event<T>)
    requires Conserved(s) && Enabled(s, e)
    ensures Conserved(Step(s, e))
  {
    BalancedDiscard(s.pushed, s.popped, s.deq, s.discarded);
    if e.Section? {
      match s.calls[e.t] {
        case Popping(_, _) =>
          if s.deq != [] {
            BalancedPop(s.pushed, s.popped, s.deq, s.discarded);
          }
        case Pushing(item, _) =>
          BalancedPush(s.pushed, s.popped, s.deq, s.discarded, item);
      }
    }
  }

  /** Safety over every interleaving, `Clear` and `Close` included. */
  lemma {:induction false} AlwaysConserved<T>(capacity: nat, es: seq<Event<T>>)
    requires Legal(Init(capacity), es)
    ensures Placed(Exec(Init(capacity), es)) && Conserved(Exec(Init(capacity), es))
    ensures Exec(Init(capacity), es).capacity == capacity
  {
    if es != [] {
      var s := Exec(Init<T>(capacity), es[..|es| - 1]);
      AlwaysConserved(capacity, es[..|es| - 1]);
      PlacedStep(s, es[|es| - 1]);
      ConservedStep(s, es[|es| - 1]);
    }
  }

  /** No wakeup of a consumer is ever lost, and none waits on a closed deque, in any interleaving. */
  lemma {:induction false} NeverLosesItems<T>(capacity: nat, es: seq<Event<T>>)
    requires Legal(Init(capacity), es)
    ensures NoLostItem(Exec(Init(capacity), es))
  {
    if es != [] {
      var s := Exec(Init<T>(capacity), es[..|es| - 1]);
      NeverLosesItems(capacity, es[..|es| - 1]);
      AlwaysConserved(capacity, es[..|es| - 1]);
      NoLostItemStep(s, es[|es| - 1]);
    }
  }

  // The event does not free slots that nobody is notified of.
  ghost predicate Harmless<T>(s: State<T>, e: Event<T>) {
    e.Clear? ==> s.producers.waiting == {} || s.capacity <= |s.producers.notified|
  }

  ghost predicate ClearsAreHarmless<T>(capacity: nat, es: seq<Event<T>>) {
    forall i :: 0 <= i < |es| ==> Harmless(Exec(Init(capacity), es[..i]), es[i])
  }

  lemma {:induction false} LegalPrefix<T>(s: State<T>, es: seq<Event<T>>, n: nat)
    requires Legal(s, es) && n <= |es|
    ensures Legal(s, es[..n])
    decreases |es|
  {
    if n == |es| {
      assert es[..n] == es;
    } else {
      LegalPrefix(s, es[..|es| - 1], n);
      assert es[..|es| - 1][..n] == es[..n];
    }
  }

  lemma PrefixStep<T>(s: State<T>, es: seq<Event<T>>, n: nat)
    requires Legal(s, es) && n < |es|
    ensures Legal(s, es[..n]) && Enabled(Exec(s, es[..n]), es[n])
    ensures Exec(s, es[..n + 1]) == Step(Exec(s, es[..n]), es[n])
  {
    LegalPrefix(s, es, n + 1);
    assert es[..n + 1][..n] == es[..n];
  }

  lemma NextSlots<T>(capacity: nat, es: seq<Event<T>>, n: nat)
    requires Legal(Init(capacity), es) && n < |es| && NoLostSlot(Exec(Init(capacity), es[..n]))
    ensures NoLostSlot(Exec(Init(capacity), es[..n + 1])) <==> Harmless(Exec(Init(capacity), es[..n]), es[n])
  {
    PrefixStep(Init(capacity), es, n);
    AlwaysConserved(capacity, es[..n]);
    NoLostSlotStep(Exec(Init(capacity), es[..n]), es[n]);
  }

  lemma {:induction false} HarmlessLosesNothing<T>(capacity: nat, es: seq<Event<T>>, n: nat)
    requires Legal(Init(capacity), es) && ClearsAreHarmless(capacity, es) && n <= |es|
    ensures NoLostSlot(Exec(Init(capacity), es[..n]))
    decreases n
  {
    if n > 0 {
      HarmlessLosesNothing(capacity, es, n - 1);
      NextSlots(capacity, es, n - 1);
    }
  }

  /** No wakeup of a producer is ever lost in an interleaving if and only if each `Clear` in it comes when no producer
      waits un-notified or there are enough notified ones; so none is lost without `Clear`. */
  lemma NeverLosesSlots<T>(capacity: nat, es: seq<Event<T>>)
    requires Legal(Init(capacity), es)
    ensures (forall n: nat :: n <= |es| ==> NoLostSlot(Exec(Init(capacity), es[..n])))
            <==> ClearsAreHarmless(capacity, es)
  {
    if ClearsAreHarmless(capacity, es) {
      forall n: nat | n <= |es|
        ensures NoLostSlot(Exec(Init(capacity), es[..n]))
      {
        HarmlessLosesNothing(capacity, es, n);
      }
    }
    if forall n: nat :: n <= |es| ==> NoLostSlot(Exec(Init(capacity), es[..n])) {
      forall i | 0 <= i < |es|
        ensures Harmless(Exec(Init(capacity), es[..i]), es[i])
      {
        NextSlots(capacity, es, i);
      }
    }
  }

  // Some thread holds a `Pop` and some thread holds a push, and nobody is able to take the mutex.
  ghost predicate Deadlocked<T>(s: State<T>) {
    && (exists t :: t in s.calls && s.calls[t].Popping?)
    && (exists t :: t in s.calls && s.calls[t].Pushing?)
    && (forall t :: t in s.calls ==> !Runnable(s, t))
  }

  /** Unless some `Clear` loses slots, producers and consumers never block each other: the capacity is positive. */
  lemma NeverDeadlocked<T>(capacity: nat, es: seq<Event<T>>)
    requires capacity > 0 && Legal(Init(capacity), es) && ClearsAreHarmless(capacity, es)
    ensures !Deadlocked(Exec(Init(capacity), es))
  {
    var s := Exec(Init<T>(capacity), es);
    AlwaysConserved(capacity, es);
    NeverLosesItems(capacity, es);
    HarmlessLosesNothing(capacity, es, |es|);
    assert es[..|es|] == es;
  }

  // One producer fills a deque of capacity one and another one waits; then the deque is cleared.
  const CLEARED: seq<Event<char>> :=
    [Enter(0, Pushing('a', false)), Section(0, 0), Enter(1, Pushing('b', false)), Section(1, 0), Clear]

  lemma FullState()
    ensures Legal(Init(1), CLEARED[..2])
    ensures Exec(Init(1), CLEARED[..2])
            == State(1, ['a'], false, map[], {}, CondVar({}, {}), CondVar({}, {}), ['a'], [], [])
  {
    var s0: State<char> := Init(1);
    ExecAppend(s0, CLEARED[..0], CLEARED[0]);
    ExecAppend(s0, CLEARED[..1], CLEARED[1]);
    assert CLEARED[..0] + [CLEARED[0]] == CLEARED[..1];
    assert CLEARED[..1] + [CLEARED[1]] == CLEARED[..2];
    assert Exec(s0, CLEARED[..1])
        == State(1, [], false, map[0 := Pushing('a', false)], {0}, CondVar({}, {}), CondVar({}, {}), [], [], []);
  }

  lemma ClearedState()
    ensures Legal(Init(1), CLEARED)
    ensures Exec(Init(1), CLEARED)
            == State(1, [], false, map[1 := Pushing('b', false)], {}, CondVar({}, {}), CondVar({1}, {}),
                     ['a'], [], ['a'])
  {
    var s0: State<char> := Init(1);
    FullState();
    ExecAppend(s0, CLEARED[..2], CLEARED[2]);
    assert CLEARED[..2] + [CLEARED[2]] == CLEARED[..3];
    assert Exec(s0, CLEARED[..3])
        == State(1, ['a'], false, map[1 := Pushing('b', false)], {1}, CondVar({}, {}), CondVar({}, {}), ['a'], [], []);
    assert CLEARED[..4] == CLEARED[..3] + [CLEARED[3]];
    ExecAppend(s0, CLEARED[..3], CLEARED[3]);
    ExecAppend(s0, CLEARED[..4], CLEARED[4]);
    assert CLEARED[..4] + [CLEARED[4]] == CLEARED;
  }

  /** `Clear` can deadlock the deque: a producer waits on a full deque, `Clear` empties it without a
      notification, and a consumer then waits on the empty deque. */
  lemma ClearCanDeadlock()
    ensures var es := CLEARED + [Enter(2, Popping(false, false))] + [Section(2, 1)];
            Legal(Init(1), es) && Deadlocked(Exec(Init(1), es))
  {
    ClearedState();
    ExecAppend(Init(1), CLEARED, Enter(2, Popping(false, false)));
    ExecAppend(Init(1), CLEARED + [Enter(2, Popping(false, false))], Section(2, 1));
    var s := Exec(Init(1), CLEARED + [Enter(2, Popping(false, false))] + [Section(2, 1)]);
    assert s.calls[1].Pushing? && s.calls[2].Popping?;
  }

  lemma ExecAppend<T>(s: State<T>, es: seq<Event<T>>, e: Event<T>)
    ensures Exec(s, es + [e]) == Step(Exec(s, es), e)
    ensures Legal(s, es + [e]) <==> Legal(s, es) && Enabled(Exec(s, es), e)
  {
    assert (es + [e])[..|es|] == es;
  }

  /** While items are queued and a consumer waits un-notified, some notified consumer takes the first
      item as soon as it gets the mutex. */
  lemma WaitingConsumerMeansProgress<T>(capacity: nat, es: seq<Event<T>>, pick: Tid)
    requires Legal(Init(capacity), es)
    requires Exec(Init(capacity), es).consumers.waiting != {} && Exec(Init(capacity), es).deq != []
    ensures var s := Exec(Init(capacity), es);
            exists t :: t in s.consumers.notified && Runnable(s, t)
                        && Step(s, Section(t, pick)).popped == s.popped + [s.deq[0]]
  {
    var s := Exec(Init<T>(capacity), es);
    AlwaysConserved(capacity, es);
    NeverLosesItems(capacity, es);
    var t :| t in s.consumers.notified;
    assert Runnable(s, t) && Step(s, Section(t, pick)).popped == s.popped + [s.deq[0]];
  }

  /** `Clear` and `Close` discard exactly what is queued, and only `Close` closes. */
  lemma DiscardsEverything<T>(s: State<T>, e: Event<T>)
    requires e.Clear? || e.Close?
    ensures var next := Step(s, e);
            && next.deq == [] && next.discarded == s.discarded + s.deq
            && next.popped == s.popped && next.pushed == s.pushed && next.closed == (s.closed || e.Close?)
  {
  }

  // ----- How a call goes on and ends

  // How a thread can get the mutex: it is in a call and is not blocked.
  ghost predicate MayRun<T>(s: State<T>, t: Tid) {
    Runnable(s, t) && t !in s.consumers.waiting && t !in s.producers.waiting
  }

  // What wakes a thread up that is blocked, or brings it into a call.
  predicate WakesUp<T>(s: State<T>, e: Event<T>, t: Tid) {
    match e
    case Enter(u, _) => u == t
    case Spurious(u) => u == t
    case TimeOut(u) => u == t
    case Flush(pick) => pick == t && t in s.consumers.waiting
    case Close => t in s.calls
    case _ => false
  }

  /** Each of these events lets the thread get the mutex, and nothing but its own critical section takes that away. */
  lemma WokenUp<T>(s: State<T>, e: Event<T>, t: Tid)
    requires Placed(s) && Enabled(s, e) && (WakesUp(s, e, t) || (MayRun(s, t) && !(e.Section? && e.t == t)))
    ensures MayRun(Step(s, e), t)
  {
  }

  // The thread does not get the mutex.
  ghost predicate Without<T>(es: seq<Event<T>>, t: Tid) {
    forall i :: 0 <= i < |es| ==> !(es[i].Section? && es[i].t == t)
  }

  // The thread is in a `Pop` whose time-out has elapsed, and may run.
  ghost predicate TimedOut<T>(s: State<T>, t: Tid) {
    MayRun(s, t) && s.calls[t] == Popping(true, true)
  }

  lemma TimedOutStep<T>(s: State<T>, e: Event<T>, t: Tid)
    requires Placed(s) && Enabled(s, e) && !(e.Section? && e.t == t)
    requires TimedOut(s, t) || e == TimeOut(t)
    ensures TimedOut(Step(s, e), t)
  {
    WokenUp(s, e, t);
  }

  lemma {:induction false} StaysTimedOut<T>(s: State<T>, es: seq<Event<T>>, t: Tid)
    requires Placed(s) && TimedOut(s, t) && Legal(s, es) && Without(es, t)
    ensures Placed(Exec(s, es)) && TimedOut(Exec(s, es), t)
  {
    if es != [] {
      var front, e := es[..|es| - 1], es[|es| - 1];
      StaysTimedOut(s, front, t);
      PlacedStep(Exec(s, front), e);
      TimedOutStep(Exec(s, front), e, t);
    }
  }

  /** Once the time-out of a `Pop` has elapsed, the thread can take the mutex whatever else happens before, and it then
      returns: with the first item if there is one and the deque is open, with nothing otherwise. */
  lemma TimedOutPopReturns<T>(capacity: nat, es: seq<Event<T>>, t: Tid, later: seq<Event<T>>, pick: Tid)
    requires Legal(Init(capacity), es) && Enabled(Exec(Init(capacity), es), TimeOut(t))
    requires Legal(Step(Exec(Init(capacity), es), TimeOut(t)), later) && Without(later, t)
    requires Exec(Step(Exec(Init(capacity), es), TimeOut(t)), later).producers.CanPick(pick)
    ensures var s := Exec(Step(Exec(Init(capacity), es), TimeOut(t)), later);
            var next := Step(s, Section(t, pick));
            && Enabled(s, Section(t, pick)) && t !in next.calls
            && if s.closed || s.deq == [] then next.popped == s.popped && next.deq == s.deq
               else next.popped == s.popped + [s.deq[0]] && next.deq == s.deq[1..]
  {
    var s := Exec(Init<T>(capacity), es);
    AlwaysConserved(capacity, es);
    PlacedStep(s, TimeOut(t));
    TimedOutStep(s, TimeOut(t), t);
    StaysTimedOut(Step(s, TimeOut(t)), later, t);
  }

  // Whether the call can return now.
  predicate CanReturn<T>(s: State<T>, call: Call<T>) {
    match call
    case Popping(_, elapsed) => s.closed || s.deq != [] || elapsed
    case Pushing(_, _) => |s.deq| < s.capacity
  }

  /** A call ends in a critical section of its own thread, and exactly when the deque lets it; otherwise the thread
      blocks. A push that ends has put
      its item in; a `Pop` that ends has taken the first item if the deque is open and not empty. */
  lemma CallEndsExactly<T>(s: State<T>, e: Event<T>, t: Tid)
    requires Placed(s) && Enabled(s, e) && t in s.calls
    ensures t !in Step(s, e).calls <==> e.Section? && e.t == t && CanReturn(s, s.calls[t])
    ensures e.Section? && e.t == t && t in Step(s, e).calls ==> !Runnable(Step(s, e), t)
    ensures t !in Step(s, e).calls ==>
              var next := Step(s, e);
              match s.calls[t]
              case Pushing(item, front) =>
                next.deq == (if front then [item] + s.deq else s.deq + [item]) && next.pushed == s.pushed + [item]
              case Popping(_, _) =>
                if s.closed || s.deq == [] then next.deq == s.deq && next.popped == s.popped
                else s.deq == [s.deq[0]] + next.deq && next.popped == s.popped + [s.deq[0]]
  {
  }

  // A consumer waits, wakes up for nothing, waits again, and its time-out elapses.
  const TIMED_OUT: seq<Event<char>> :=
    [Enter(0, Popping(true, false)), Section(0, 0), Spurious(0), Section(0, 0), TimeOut(0), Section(0, 0)]

  lemma Next(s: State<char>, es: seq<Event<char>>, e: Event<char>, next: State<char>)
    requires Legal(Init(1), es) && Exec(Init(1), es) == s && Enabled(s, e) && Step(s, e) == next
    ensures Legal(Init(1), es + [e]) && Exec(Init(1), es + [e]) == next
  {
    ExecAppend(Init(1), es, e);
  }

  // The deque with one consumer.
  function Consumer(elapsed: bool, ready: bool): State<char> {
    State(1, [], false, map[0 := Popping(true, elapsed)], if ready then {0} else {},
          CondVar(if ready then {} else {0}, {}), CondVar({}, {}), [], [], [])
  }

  lemma ConsumerSteps()
    ensures Step(Init(1), Enter(0, Popping(true, false))) == Consumer(false, true)
    ensures Step(Consumer(false, true), Section(0, 0)) == Consumer(false, false)
    ensures Step(Consumer(false, false), Spurious(0)) == Consumer(false, true)
    ensures Step(Consumer(false, false), TimeOut(0)) == Consumer(true, true)
    ensures Step(Consumer(true, true), Section(0, 0)) == Init(1)
  {
  }

  /** Such a call returns with nothing. */
  lemma TimedOutRun()
    ensures exists es :: es == TIMED_OUT && Legal(Init(1), es) && Exec(Init(1), es) == Init(1)
  {
    ConsumerSteps();
    Next(Init(1), [], Enter(0, Popping(true, false)), Consumer(false, true));
    var e1 := [] + [Enter(0, Popping(true, false))];
    Next(Consumer(false, true), e1, Section(0, 0), Consumer(false, false));
    var e2 := e1 + [Section(0, 0)];
    Next(Consumer(false, false), e2, Spurious(0), Consumer(false, true));
    var e3 := e2 + [Spurious(0)];
    Next(Consumer(false, true), e3, Section(0, 0), Consumer(false, false));
    var e4 := e3 + [Section(0, 0)];
    Next(Consumer(false, false), e4, TimeOut(0), Consumer(true, true));
    var e5 := e4 + [TimeOut(0)];
    Next(Consumer(true, true), e5, Section(0, 0), Init(1));
    assert e5 + [Section(0, 0)] == TIMED_OUT;
  }

  // ----- Order

  // `a` is what is left of `b` after leaving out some of its elements.
  ghost predicate Subsequence<T(!new)>(a: seq<T>, b: seq<T>) {
    a == [] || (b != [] && (Subsequence(a, b[..|b| - 1])
                            || (a[|a| - 1] == b[|b| - 1] && Subsequence(a[..|a| - 1], b[..|b| - 1]))))
  }

  lemma {:induction false} SubsequenceExtends<T(!new)>(a: seq<T>, b: seq<T>, c: seq<T>)
    requires Subsequence(a, b)
    ensures Subsequence(a, b + c)
    decreases |c|
  {
    if c == [] {
      assert b + c == b;
    } else {
      SubsequenceExtends(a, b, c[..|c| - 1]);
      assert (b + c)[..|b + c| - 1] == b + c[..|c| - 1];
    }
  }

  ghost predicate OnlyPushBack<T>(es: seq<Event<T>>) {
    forall i :: 0 <= i < |es| && es[i].Enter? && es[i].call.Pushing? ==> !es[i].call.front
  }

  // The queued items are the last accepted ones, and the popped ones come, in order, from those before.
  ghost predicate Ordered<T(!new)>(pushed: seq<T>, popped: seq<T>, deq: seq<T>, discarded: seq<T>) {
    && |deq| <= |pushed|
    && deq == pushed[|pushed| - |deq|..]
    && Subsequence(popped, pushed[..|pushed| - |deq|])
    && (discarded == [] ==> popped == pushed[..|pushed| - |deq|])
  }

  ghost predicate InOrder<T(!new)>(s: State<T>) {
    && (forall t :: t in s.calls && s.calls[t].Pushing? ==> !s.calls[t].front)
    && Ordered(s.pushed, s.popped, s.deq, s.discarded)
  }

  // The three ways in which a step changes the queue: an item leaves, an item is appended, all items are discarded.
  lemma OrderedPop<T(!new)>(pushed: seq<T>, popped: seq<T>, deq: seq<T>, discarded: seq<T>)
    requires Ordered(pushed, popped, deq, discarded) && deq != []
    ensures Ordered(pushed, popped + [deq[0]], deq[1..], discarded)
  {
    var n := |pushed| - |deq|;
    assert pushed[..n + 1][..n] == pushed[..n] && pushed[n] == deq[0];
    assert (popped + [deq[0]])[..|popped|] == popped;
  }

  lemma OrderedPush<T(!new)>(pushed: seq<T>, popped: seq<T>, deq: seq<T>, discarded: seq<T>, item: T)
    requires Ordered(pushed, popped, deq, discarded)
    ensures Ordered(pushed + [item], popped, deq + [item], discarded)
  {
    var n := |pushed| - |deq|;
    assert (pushed + [item])[..n] == pushed[..n];
  }

  lemma OrderedDiscard<T(!new)>(pushed: seq<T>, popped: seq<T>, deq: seq<T>, discarded: seq<T>)
    requires Ordered(pushed, popped, deq, discarded)
    ensures Ordered(pushed, popped, [], discarded + deq)
  {
    var n := |pushed| - |deq|;
    SubsequenceExtends(popped, pushed[..n], deq);
    assert pushed[..n] + deq == pushed == pushed[..|pushed|];
  }

  lemma InOrderStep<T(!new)>(s: State<T>, e: Event<T>)
    requires InOrder(s) && Enabled(s, e)
    requires e.Enter? && e.call.Pushing? ==> !e.call.front
    ensures InOrder(Step(s, e))
  {
    OrderedDiscard(s.pushed, s.popped, s.deq, s.discarded);
    if e.Section? {
      match s.calls[e.t] {
        case Popping(_, _) =>
          if s.deq != [] {
            OrderedPop(s.pushed, s.popped, s.deq, s.discarded);
          }
        case Pushing(item, _) =>
          OrderedPush(s.pushed, s.popped, s.deq, s.discarded, item);
      }
    }
  }

  lemma {:induction false} AlwaysInOrder<T(!new)>(capacity: nat, es: seq<Event<T>>)
    requires Legal(Init(capacity), es) && OnlyPushBack(es)
    ensures InOrder(Exec(Init(capacity), es))
  {
    if es != [] {
      var front, e := es[..|es| - 1], es[|es| - 1];
      assert OnlyPushBack(front);
      AlwaysInOrder(capacity, front);
      AlwaysConserved(capacity, front);
      assert e.Enter? && e.call.Pushing? ==> !e.call.front;
      InOrderStep(Exec(Init(capacity), front), e);
    }
  }

  /** With `PushBack` only, items are popped in the order they were accepted, in every interleaving;
      as long as nothing has been discarded, none is skipped. */
  lemma FirstInFirstOut<T(!new)>(capacity: nat, es: seq<Event<T>>)
    requires Legal(Init(capacity), es) && OnlyPushBack(es)
    ensures var s := Exec(Init(capacity), es);
            Subsequence(s.popped, s.pushed) && (s.discarded == [] ==> s.pushed == s.popped + s.deq)
  {
    AlwaysInOrder(capacity, es);
    var s := Exec(Init<T>(capacity), es);
    var n := |s.pushed| - |s.deq|;
    assert s.pushed == s.pushed[..n] + s.pushed[n..];
    SubsequenceExtends(s.popped, s.pushed[..n], s.pushed[n..]);
  }

  function Reversed<T>(s: seq<T>): seq<T> {
    if s == [] then [] else Reversed(s[1..]) + [s[0]]
  }

  lemma {:induction false} SubsequenceDropsLast<T(!new)>(a: seq<T>, b: seq<T>)
    requires a != [] && Subsequence(a, b)
    ensures Subsequence(a[..|a| - 1], b)
    decreases |b|
  {
    if Subsequence(a, b[..|b| - 1]) {
      SubsequenceDropsLast(a, b[..|b| - 1]);
    }
  }

  // From the back to the front, the queued items are in the order of acceptance.
  ghost predicate Stacked<T(!new)>(s: State<T>) {
    && (forall t :: t in s.calls && s.calls[t].Pushing? ==> s.calls[t].front)
    && Subsequence(Reversed(s.deq), s.pushed)
  }

  lemma StackedPush<T(!new)>(pushed: seq<T>, deq: seq<T>, item: T)
    requires Subsequence(Reversed(deq), pushed)
    ensures Subsequence(Reversed([item] + deq), pushed + [item])
  {
    assert ([item] + deq)[1..] == deq;
    var r := Reversed([item] + deq);
    assert r[..|r| - 1] == Reversed(deq) && (pushed + [item])[..|pushed|] == pushed;
  }

  lemma StackedPop<T(!new)>(pushed: seq<T>, deq: seq<T>)
    requires Subsequence(Reversed(deq), pushed) && deq != []
    ensures Subsequence(Reversed(deq[1..]), pushed)
  {
    var r := Reversed(deq);
    assert r[..|r| - 1] == Reversed(deq[1..]);
    SubsequenceDropsLast(r, pushed);
  }

  lemma StackedStep<T(!new)>(s: State<T>, e: Event<T>)
    requires Stacked(s) && Enabled(s, e)
    requires e.Enter? && e.call.Pushing? ==> e.call.front
    ensures Stacked(Step(s, e))
  {
    if e.Section? {
      match s.calls[e.t] {
        case Popping(_, _) =>
          if s.deq != [] {
            StackedPop(s.pushed, s.deq);
          }
        case Pushing(item, _) =>
          StackedPush(s.pushed, s.deq, item);
      }
    }
  }

  /** With `PushFront` only, the next item to be popped is always the one accepted last of those in the deque: from
      the back to the front they are in the order of acceptance, in every interleaving. */
  lemma {:induction false} LastInFirstOut<T(!new)>(capacity: nat, es: seq<Event<T>>)
    requires Legal(Init(capacity), es)
    requires forall i :: 0 <= i < |es| && es[i].Enter? && es[i].call.Pushing? ==> es[i].call.front
    ensures Stacked(Exec(Init(capacity), es))
  {
    if es != [] {
      var front, e := es[..|es| - 1], es[|es| - 1];
      LastInFirstOut(capacity, front);
      assert e.Enter? && e.call.Pushing? ==> e.call.front;
      StackedStep(Exec(Init(capacity), front), e);
    }
  }

  // ----- Closing

  /** After `Close` no `Pop` takes an item and no consumer ever waits again, whatever happens. */
  lemma {:induction false} NothingPoppedAfterClose<T>(s: State<T>, es: seq<Event<T>>)
    requires Placed(s) && NoLostItem(s) && Legal(Step(s, Close), es)
    ensures var s' := Exec(Step(s, Close), es);
            s'.closed && Placed(s') && s'.popped == s.popped && s'.consumers.waiting == {}
  {
    if es != [] {
      var s' := Exec(Step(s, Close), es[..|es| - 1]);
      NothingPoppedAfterClose(s, es[..|es| - 1]);
      PlacedStep(s', es[|es| - 1]);
    } else {
      PlacedStep(s, Close);
    }
  }

  // ----- The deque itself

  // How a critical section ends: the thread waits at a condition variable, or its call returns.
  datatype Outcome<+T> = Waits | Returns(item: Option<T>)

  /** The fields of the deque; the scheduler's part of the state and the history are ghost. Each method is
      one critical section and is proved to be the step of the transition system. `pick` is the
      thread that `notify_one` wakes up, if any thread waits. */
  class BlockDeque<T> {
    const capacity: nat
    var deq: seq<T>
    var closed: bool
    ghost var calls: map<Tid, Call<T>>
    ghost var ready: set<Tid>
    ghost var consumerCond: CondVar
    ghost var producerCond: CondVar
    ghost var pushed: seq<T>
    ghost var popped: seq<T>
    ghost var discarded: seq<T>

    ghost function View(): State<T>
      reads this
    {
      State(capacity, deq, closed, calls, ready, consumerCond, producerCond, pushed, popped, discarded)
    }

    constructor (capacity: nat)
      requires capacity > 0
      ensures View() == Init(capacity)
    {
      this.capacity := capacity;
      deq, closed := [], false;
      calls, ready, consumerCond, producerCond := map[], {}, CondVar({}, {}), CondVar({}, {});
      pushed, popped, discarded := [], [], [];
    }

    // The thread's call is over.
    ghost method Leave(t: Tid)
      modifies this`calls, this`ready, this`consumerCond, this`producerCond
      ensures View() == Return(old(View()), t)
    {
      calls, ready := calls - {t}, ready - {t};
      consumerCond, producerCond := consumerCond.Leave(t), producerCond.Leave(t);
    }

    method Pop(t: Tid, elapsed: bool, ghost pick: Tid) returns (outcome: Outcome<T>)
      requires Placed(View()) && Enabled(View(), Section(t, pick)) && calls[t].Popping? && calls[t].elapsed == elapsed
      modifies this
      ensures View() == Step(old(View()), Section(t, pick))
      ensures outcome == if old(closed) then Returns(None)
                         else if old(deq) != [] then Returns(Some(old(deq)[0]))
                         else if elapsed then Returns(None) else Waits
    {
      if deq == [] && !closed {
        if elapsed {
          Leave(t);
          return Returns(None);
        }
        ready, consumerCond := ready - {t}, consumerCond.Wait(t);
        return Waits;
      }
      if closed {
        Leave(t);
        return Returns(None);
      }
      var item := deq[0];
      deq := deq[1..];
      popped := popped + [item];
      Leave(t);
      producerCond := producerCond.NotifyOne(pick);
      return Returns(Some(item));
    }

    // The common critical section of `PushBack` (front is false) and `PushFront`.
    method Push(t: Tid, item: T, front: bool, ghost pick: Tid) returns (outcome: Outcome<T>)
      requires Placed(View()) && Enabled(View(), Section(t, pick)) && calls[t] == Pushing(item, front)
      modifies this
      ensures View() == Step(old(View()), Section(t, pick))
      ensures outcome == if old(|deq|) < capacity then Returns(None) else Waits
    {
      if !(|deq| < capacity) {
        ready, producerCond := ready - {t}, producerCond.Wait(t);
        return Waits;
      }
      deq := if front then [item] + deq else deq + [item];
      pushed := pushed + [item];
      Leave(t);
      FlushConsumer(pick);
      return Returns(None);
    }

    method FlushConsumer(ghost pick: Tid)
      requires consumerCond.CanPick(pick)
      modifies this`consumerCond
      ensures Enabled(old(View()), Event.Flush(pick)) && View() == Step(old(View()), Event.Flush(pick))
    {
      consumerCond := consumerCond.NotifyOne(pick);
    }

    method ClearNoLock()
      modifies this`deq, this`discarded
      ensures Enabled(old(View()), Event.Clear) && View() == Step(old(View()), Event.Clear)
    {
      discarded := discarded + deq;
      deq := [];
    }

    method CloseAll()
      modifies this
      ensures Enabled(old(View()), Event.Close) && View() == Step(old(View()), Event.Close)
    {
      ClearNoLock();
      closed := true;
      producerCond := producerCond.NotifyAll();
      consumerCond := consumerCond.NotifyAll();
    }
  }
}
