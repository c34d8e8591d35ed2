/** What a client of `fpc_worker` may rely on: a worker with a one-place task slot.

    `slot` is the task posted and not yet taken, `busy` is the state field (RUNNING), and
    `running` is the task whose body is between being taken and returning.  Module
    `WorkerThread` proves that the mutex and condition-variable code implements exactly these
    steps; module `Arbitration` builds on them. */
module WorkerSpec {
  import opened Bytes

  /** Identity of a submitted (function, argument) pair. */
  type Task = nat

  datatype Worker = Worker(slot: Option<Task>, busy: bool, running: Option<Task>)
  {
    predicate Quiet() {
      slot.None? && !busy && running.None?
    }
  }

  const NEW_WORKER := Worker(None, false, None)

  function Posted(w: Worker, t: Task): Worker { w.(slot := Some(t)) }

  /** The client stores a task in the slot. */
  predicate Post(w: Worker, t: Task, w': Worker) {
    w.slot.None? && w' == Posted(w, t)
  }

  /** The worker takes the task, empties the slot and becomes busy, in one critical section. */
  predicate Take(w: Worker, w': Worker) {
    && w.slot.Some?
    && w.running.None?
    && !w.busy
    && w' == Worker(None, true, w.slot)
  }

  /** The task body returns; the worker is still busy until it next holds the mutex. */
  predicate Return(w: Worker, w': Worker) {
    && w.running.Some?
    && w' == w.(running := None)
  }

  predicate BecomeIdle(w: Worker, w': Worker) {
    && w.running.None?
    && w.busy
    && w' == w.(busy := false)
  }

  /** The three steps a worker thread takes on its own. */
  predicate WorkerStep(w: Worker, w': Worker) {
    Take(w, w') || Return(w, w') || BecomeIdle(w, w')
  }
}
