/** A condition variable, as the two monitors of the server use it. */
module CondVars {

  type Tid = nat

  // `waiting` threads are blocked; `notified` threads have been notified but do not hold the mutex yet.
  datatype CondVar = CondVar(waiting: set<Tid>, notified: set<Tid>) {

    // A thread gives up the mutex and blocks.
    function Wait(t: Tid): CondVar {
      CondVar(waiting + {t}, notified - {t})
    }

    // A thread stops being associated with the variable.
    function Leave(t: Tid): CondVar {
      CondVar(waiting - {t}, notified - {t})
    }

    // A blocked thread wakes up unasked; a notified one stays notified.
    function WakeUp(t: Tid): CondVar {
      CondVar(waiting - {t}, notified)
    }

    // Which thread `notify_one` wakes up is up to the implementation: `pick` is any waiting thread.
    ghost predicate CanPick(pick: Tid) {
      waiting == {} || pick in waiting
    }

    function NotifyOne(pick: Tid): CondVar {
      if pick in waiting then CondVar(waiting - {pick}, notified + {pick}) else this
    }

    function NotifyAll(): CondVar {
      CondVar({}, notified + waiting)
    }

    ghost predicate Valid() {
      waiting !! notified
    }
  }
}
