/** The worker thread of fpc_worker.c with one client at a time, as interleaved steps.

    Every lock, unlock, store, test, wait and signal of the source is its own step, so a signal
    sent between a test and the following wait really is lost.  A waiting thread is put back on
    the mutex by a signal or, at any moment, by a spurious wake-up. */
module WorkerThread {
  import opened Bytes
  import opened WorkerSpec

  datatype Mutex = Free | HeldByWorker | HeldByClient

  /** Position of the worker thread in `worker_function`. */
  datatype WorkerPc =
    | WLock | WSetIdle | WSignalIdle | WTest | WWait | WAsleep | WReacquire
    | WTake | WSignalTaken | WUnlock | WBody | WUnlockExit | WExited

  /** Position of the client in run_task, join_task or destroy. */
  datatype ClientPc =
    | Outside
    | RunLock(task: Task) | RunStore(task: Task) | RunSignal | RunTest | RunWait | RunAsleep
    | RunReacquire | RunUnlock
    | JoinLock | JoinTest | JoinWait | JoinAsleep | JoinReacquire | JoinUnlock
    | DestroyLock | DestroyStore | DestroyUnlock | DestroySignal | DestroyJoin | Destroyed

  /** The shared fields, both positions, the worker's local `task`, and the history of tasks
      submitted, of bodies entered and of bodies returned from. */
  datatype State = State(
    mutex: Mutex,
    wpc: WorkerPc,
    cpc: ClientPc,
    slot: Option<Task>,
    busy: bool,
    terminate: bool,
    local: Task,
    log: History)

  datatype History = History(submitted: seq<Task>, started: seq<Task>, finished: seq<Task>)

  function Submitted(h: History, t: Task): History { h.(submitted := h.submitted + [t]) }

  function Started(h: History, t: Task): History { h.(started := h.started + [t]) }

  function Finished(h: History, t: Task): History { h.(finished := h.finished + [t]) }

  predicate Init(s: State) {
    && s.mutex == Free && s.wpc == WLock && s.cpc == Outside
    && s.slot == None && !s.busy && !s.terminate
    && s.log == History([], [], [])
  }

  // ---------------------------------------------------------------- condition variable

  predicate WorkerSleeps(s: State) { s.wpc == WAsleep }

  predicate ClientSleeps(s: State) { s.cpc == RunAsleep || s.cpc == JoinAsleep }

  function WakeWorker(s: State): State {
    if s.wpc == WAsleep then s.(wpc := WReacquire) else s
  }

  function WakeClient(s: State): State {
    if s.cpc == RunAsleep then s.(cpc := RunReacquire)
    else if s.cpc == JoinAsleep then s.(cpc := JoinReacquire)
    else s
  }

  /** `pthread_cond_signal`: at least one sleeper wakes if there is any. */
  predicate Signal(s: State, s': State) {
    || s' == WakeWorker(WakeClient(s))
    || (WorkerSleeps(s) && s' == WakeWorker(s))
    || (ClientSleeps(s) && s' == WakeClient(s))
  }

  predicate Spurious(s: State, s': State) {
    || (WorkerSleeps(s) && s' == WakeWorker(s))
    || (ClientSleeps(s) && s' == WakeClient(s))
  }

  // ---------------------------------------------------------------- steps

  predicate WorkerMoves(s: State, s': State) {
    match s.wpc
    case WLock => s.mutex == Free && s' == s.(mutex := HeldByWorker, wpc := WSetIdle)
    case WSetIdle => s' == s.(busy := false, wpc := WSignalIdle)
    case WSignalIdle => Signal(s.(wpc := WTest), s')
    case WTest =>
      s' == s.(wpc := if s.terminate then WUnlockExit else if s.slot.Some? then WTake else WWait)
    case WWait => s' == s.(mutex := Free, wpc := WAsleep)
    case WAsleep => false
    case WReacquire => s.mutex == Free && s' == s.(mutex := HeldByWorker, wpc := WTest)
    case WTake =>
      && s.slot.Some?
      && s' == s.(local := s.slot.value, busy := true, slot := None, wpc := WSignalTaken,
                  log := Started(s.log, s.slot.value))
    case WSignalTaken => Signal(s.(wpc := WUnlock), s')
    case WUnlock => s' == s.(mutex := Free, wpc := WBody)
    case WBody => s' == s.(wpc := WLock, log := Finished(s.log, s.local))
    case WUnlockExit => s' == s.(mutex := Free, wpc := WExited)
    case WExited => false
  }

  /** A client starts its next call; calls do not overlap. */
  predicate ClientCalls(s: State, s': State) {
    && s.cpc == Outside
    && (s'.cpc.RunLock? || s'.cpc in {JoinLock, DestroyLock})
    && s' == s.(cpc := s'.cpc)
  }

  predicate ClientMoves(s: State, s': State) {
    match s.cpc
    case Outside => false
    case RunLock(t) => s.mutex == Free && s' == s.(mutex := HeldByClient, cpc := RunStore(t))
    case RunStore(t) => s' == s.(slot := Some(t), cpc := RunSignal, log := Submitted(s.log, t))
    case RunSignal => Signal(s.(cpc := RunTest), s')
    case RunTest => s' == s.(cpc := if s.slot.Some? then RunWait else RunUnlock)
    case RunWait => s' == s.(mutex := Free, cpc := RunAsleep)
    case RunAsleep => false
    case RunReacquire => s.mutex == Free && s' == s.(mutex := HeldByClient, cpc := RunTest)
    case RunUnlock => s' == s.(mutex := Free, cpc := Outside)
    case JoinLock => s.mutex == Free && s' == s.(mutex := HeldByClient, cpc := JoinTest)
    case JoinTest => s' == s.(cpc := if s.busy then JoinWait else JoinUnlock)
    case JoinWait => s' == s.(mutex := Free, cpc := JoinAsleep)
    case JoinAsleep => false
    case JoinReacquire => s.mutex == Free && s' == s.(mutex := HeldByClient, cpc := JoinTest)
    case JoinUnlock => s' == s.(mutex := Free, cpc := Outside)
    case DestroyLock => s.mutex == Free && s' == s.(mutex := HeldByClient, cpc := DestroyStore)
    case DestroyStore => s' == s.(terminate := true, cpc := DestroyUnlock)
    case DestroyUnlock => s' == s.(mutex := Free, cpc := DestroySignal)
    case DestroySignal => Signal(s.(cpc := DestroyJoin), s')
    case DestroyJoin => s.wpc == WExited && s' == s.(cpc := Destroyed)
    case Destroyed => false
  }

  /** A step of either thread inside its code, as opposed to a new call or a spurious wake-up. */
  predicate Progress(s: State, s': State) {
    WorkerMoves(s, s') || ClientMoves(s, s')
  }

  predicate Next(s: State, s': State) {
    Progress(s, s') || ClientCalls(s, s') || Spurious(s, s')
  }

  ghost predicate IsRun(run: seq<State>) {
    && |run| > 0
    && Init(run[0])
    && forall i {:trigger run[i]} :: 0 < i < |run| ==> Next(run[i - 1], run[i])
  }

  // ---------------------------------------------------------------- invariant

  predicate WorkerHolds(pc: WorkerPc) {
    pc in {WSetIdle, WSignalIdle, WTest, WWait, WTake, WSignalTaken, WUnlock, WUnlockExit}
  }

  predicate ClientHolds(pc: ClientPc) {
    || pc.RunStore? || pc in {RunSignal, RunTest, RunWait, RunUnlock}
    || pc in {JoinTest, JoinWait, JoinUnlock, DestroyStore, DestroyUnlock}
  }

  predicate InBody(pc: WorkerPc) { pc in {WSignalTaken, WUnlock, WBody} }

  predicate InRunWait(pc: ClientPc) {
    pc in {RunSignal, RunTest, RunWait, RunAsleep, RunReacquire}
  }

  function AsSeq(o: Option<Task>): seq<Task> { if o.Some? then [o.value] else [] }

  predicate MutexInv(s: State) {
    && (s.mutex == HeldByWorker <==> WorkerHolds(s.wpc))
    && (s.mutex == HeldByClient <==> ClientHolds(s.cpc))
  }

  /** Every submitted task is in exactly one place: returned, in its body, or in the slot. */
  predicate HistoryInv(s: State) {
    && s.log.submitted == s.log.started + AsSeq(s.slot)
    && s.log.started == s.log.finished + (if InBody(s.wpc) then [s.local] else [])
  }

  predicate FieldInv(s: State) {
    && (InBody(s.wpc) ==> s.busy)
    && (s.busy ==> InBody(s.wpc) || s.wpc in {WLock, WSetIdle})
    && (s.slot.Some? ==> InRunWait(s.cpc))
    && (s.terminate ==> s.cpc in {DestroyUnlock, DestroySignal, DestroyJoin, Destroyed})
    && (s.cpc in {DestroyUnlock, DestroySignal, DestroyJoin, Destroyed} ==> s.terminate)
    && (s.wpc in {WUnlockExit, WExited} ==> s.terminate)
    && (s.cpc == Destroyed ==> s.wpc == WExited)
  }

  /** Tests made under the mutex are still true when acted on, and whoever sleeps although its
      condition already holds is about to be signalled. */
  predicate WakeUpInv(s: State) {
    && (s.wpc == WWait ==> s.slot.None? && !s.terminate)
    && (s.wpc == WTake ==> s.slot.Some? && !s.terminate)
    && (s.wpc == WAsleep && s.slot.Some? ==> s.cpc == RunSignal)
    && (s.wpc == WAsleep && s.terminate ==> s.cpc in {DestroyUnlock, DestroySignal})
    && (s.cpc == RunWait ==> s.slot.Some?)
    && (s.cpc == RunUnlock ==> s.slot.None?)
    && (s.cpc == RunAsleep && s.slot.None? ==> s.wpc == WSignalTaken)
    && (s.cpc == JoinWait ==> s.busy)
    && (s.cpc == JoinUnlock ==> !s.busy)
    && (s.cpc == JoinAsleep && !s.busy ==> s.wpc == WSignalIdle)
  }

  predicate Inv(s: State) {
    ControlInv(s) && HistoryInv(s)
  }

  predicate ControlInv(s: State) {
    MutexInv(s) && FieldInv(s) && WakeUpInv(s)
  }

  lemma MutexInvWorker(s: State, s': State)
    requires ControlInv(s)
    requires WorkerMoves(s, s') || Spurious(s, s')
    ensures MutexInv(s')
  {
  }

  lemma MutexInvClient(s: State, s': State)
    requires ControlInv(s)
    requires ClientMoves(s, s') || ClientCalls(s, s')
    ensures MutexInv(s')
  {
  }

  lemma FieldInvWorker(s: State, s': State)
    requires ControlInv(s)
    requires WorkerMoves(s, s') || Spurious(s, s')
    ensures FieldInv(s')
  {
  }

  predicate InDestroy(pc: ClientPc) {
    pc in {DestroyLock, DestroyStore, DestroyUnlock, DestroySignal, DestroyJoin, Destroyed}
  }

  lemma FieldInvDestroy(s: State, s': State)
    requires ControlInv(s) && InDestroy(s.cpc)
    requires ClientMoves(s, s')
    ensures FieldInv(s')
  {
  }

  lemma FieldInvRunJoin(s: State, s': State)
    requires ControlInv(s) && !InDestroy(s.cpc)
    requires ClientMoves(s, s') || ClientCalls(s, s')
    ensures FieldInv(s')
  {
  }

  lemma FieldInvClient(s: State, s': State)
    requires ControlInv(s)
    requires ClientMoves(s, s') || ClientCalls(s, s')
    ensures FieldInv(s')
  {
    hide ControlInv, ClientMoves, FieldInv;
    if InDestroy(s.cpc) {
      FieldInvDestroy(s, s');
    } else {
      FieldInvRunJoin(s, s');
    }
  }

  lemma WakeUpInvWorker(s: State, s': State)
    requires ControlInv(s)
    requires WorkerMoves(s, s') || Spurious(s, s')
    ensures WakeUpInv(s')
  {
  }

  lemma WakeUpInvDestroy(s: State, s': State)
    requires ControlInv(s) && InDestroy(s.cpc)
    requires ClientMoves(s, s')
    ensures WakeUpInv(s')
  {
  }

  lemma WakeUpInvRunJoin(s: State, s': State)
    requires ControlInv(s) && !InDestroy(s.cpc)
    requires ClientMoves(s, s') || ClientCalls(s, s')
    ensures WakeUpInv(s')
  {
  }

  lemma WakeUpInvClient(s: State, s': State)
    requires ControlInv(s)
    requires ClientMoves(s, s') || ClientCalls(s, s')
    ensures WakeUpInv(s')
  {
    hide ControlInv, ClientMoves, WakeUpInv;
    if InDestroy(s.cpc) {
      WakeUpInvDestroy(s, s');
    } else {
      WakeUpInvRunJoin(s, s');
    }
  }

  lemma ControlInvStep(s: State, s': State)
    requires ControlInv(s)
    requires Next(s, s')
    ensures ControlInv(s')
  {
    hide WorkerMoves, ClientMoves, ClientCalls, Spurious, MutexInv, FieldInv, WakeUpInv;
    if WorkerMoves(s, s') || Spurious(s, s') {
      MutexInvWorker(s, s');
      FieldInvWorker(s, s');
      WakeUpInvWorker(s, s');
    } else {
      MutexInvClient(s, s');
      FieldInvClient(s, s');
      WakeUpInvClient(s, s');
    }
  }

  /** Only three steps touch the history; the others keep it and keep `InBody`. */
  lemma HistoryKept(s: State, s': State)
    requires ControlInv(s)
    requires Next(s, s')
    ensures (WorkerMoves(s, s') && s.wpc in {WTake, WBody})
            || (ClientMoves(s, s') && s.cpc.RunStore?)
            || (&& s'.log == s.log && s'.slot == s.slot && s'.local == s.local && InBody(s'.wpc) == InBody(s.wpc))
  {
  }

  lemma HistoryInvStep(s: State, s': State)
    requires ControlInv(s) && HistoryInv(s)
    requires Next(s, s')
    ensures HistoryInv(s')
  {
    HistoryKept(s, s');
    if WorkerMoves(s, s') && s.wpc == WTake {
      assert s.log.finished == s.log.started;
    } else if WorkerMoves(s, s') && s.wpc == WBody {
      assert s'.log.finished == s.log.started;
    } else if ClientMoves(s, s') && s.cpc.RunStore? {
      assert s.log.started == s.log.submitted;
    }
  }

  lemma InvStep(s: State, s': State)
    requires Inv(s)
    requires Next(s, s')
    ensures Inv(s')
  {
    hide Next, ControlInv, HistoryInv;
    ControlInvStep(s, s');
    HistoryInvStep(s, s');
  }

  lemma {:induction false} InvHolds(run: seq<State>)
    requires IsRun(run)
    ensures Inv(run[|run| - 1])
  {
    if |run| > 1 {
      var prefix := run[..|run| - 1];
      InvHolds(prefix);
      InvStep(prefix[|prefix| - 1], run[|run| - 1]);
    }
  }

  // ---------------------------------------------------------------- tasks run once and in order

  lemma HistoryGrowsStep(s: State, s': State)
    requires ControlInv(s)
    requires Next(s, s')
    ensures s.log.submitted <= s'.log.submitted && s.log.started <= s'.log.started && s.log.finished <= s'.log.finished
  {
    HistoryKept(s, s');
    if WorkerMoves(s, s') && s.wpc in {WTake, WBody} {
    } else if ClientMoves(s, s') && s.cpc.RunStore? {
    }
  }

  lemma {:induction false} HistoryGrows(run: seq<State>, i: nat, j: nat)
    requires IsRun(run)
    requires i <= j < |run|
    ensures run[i].log.submitted <= run[j].log.submitted
    ensures run[i].log.started <= run[j].log.started
    ensures run[i].log.finished <= run[j].log.finished
    decreases j - i
  {
    hide Next;
    if i < j {
      HistoryGrows(run, i, j - 1);
      InvHolds(run[..j]);
      HistoryGrowsStep(run[j - 1], run[j]);
    }
  }

  /** Bodies are entered in submission order, each exactly once, and at most one task is in the
      slot and one in its body. */
  lemma TasksRunOnceInOrder(run: seq<State>)
    requires IsRun(run)
    ensures var s := run[|run| - 1];
            && s.log.finished <= s.log.started <= s.log.submitted
            && |s.log.submitted| <= |s.log.started| + 1
            && |s.log.started| <= |s.log.finished| + 1
            && (s.wpc == WBody ==> s.log.started == s.log.finished + [s.local])
  {
    InvHolds(run);
  }

  /** `run_task` returns only once every task submitted so far has been taken, and `join_task`
      only once the body of every one of them has returned. */
  lemma CallsReturnLate(run: seq<State>, i: nat)
    requires IsRun(run)
    requires 0 < i < |run|
    requires run[i].cpc == Outside
    ensures run[i - 1].cpc == RunUnlock ==> run[i].log.started == run[i].log.submitted
    ensures run[i - 1].cpc == JoinUnlock ==> run[i].log.finished == run[i].log.submitted
  {
    hide Next, Init;
    InvHolds(run[..i]);
    ReturnStep(run[i - 1], run[i]);
  }

  lemma ReturnStep(s: State, s': State)
    requires Inv(s)
    requires Next(s, s')
    requires s'.cpc == Outside
    ensures s.cpc == RunUnlock ==> s'.log.started == s'.log.submitted
    ensures s.cpc == JoinUnlock ==> s'.log.finished == s'.log.submitted
  {
    hide WorkerMoves, HistoryInv;
    if s.cpc in {RunUnlock, JoinUnlock} {
      HolderMoves(s, s');
      HistoryAtRest(s);
    }
  }

  /** While the client is about to unlock, only it can move. */
  lemma HolderMoves(s: State, s': State)
    requires ControlInv(s)
    requires s.cpc in {RunUnlock, JoinUnlock} && s'.cpc == Outside
    requires Next(s, s')
    ensures s'.log == s.log
  {
  }

  lemma HistoryAtRest(s: State)
    requires Inv(s)
    ensures s.slot.None? ==> s.log.started == s.log.submitted
    ensures s.slot.None? && !InBody(s.wpc) ==> s.log.finished == s.log.submitted
  {
  }

  // ---------------------------------------------------------------- no lost wake-up

  lemma NeverBothAsleep(run: seq<State>)
    requires IsRun(run)
    ensures var s := run[|run| - 1];
            && !(WorkerSleeps(s) && ClientSleeps(s))
            && (WorkerSleeps(s) && (s.slot.Some? || s.terminate)
                ==> s.cpc in {RunSignal, DestroyUnlock, DestroySignal})
            && (s.cpc == RunAsleep && s.slot.None? ==> s.wpc == WSignalTaken)
            && (s.cpc == JoinAsleep && !s.busy ==> s.wpc == WSignalIdle)
  {
    InvHolds(run);
  }

  /** A state to which one of the threads can move by itself. */
  function Advance(s: State): State
    requires Inv(s)
    requires s.cpc != Outside && s.cpc != Destroyed
  {
    match s.wpc
    case WSetIdle => s.(busy := false, wpc := WSignalIdle)
    case WSignalIdle => WakeClient(s.(wpc := WTest))
    case WTest =>
      s.(wpc := if s.terminate then WUnlockExit else if s.slot.Some? then WTake else WWait)
    case WWait => s.(mutex := Free, wpc := WAsleep)
    case WTake =>
      s.(local := s.slot.value, busy := true, slot := None, wpc := WSignalTaken,
         log := Started(s.log, s.slot.value))
    case WSignalTaken => WakeClient(s.(wpc := WUnlock))
    case WUnlock => s.(mutex := Free, wpc := WBody)
    case WBody => s.(wpc := WLock, log := Finished(s.log, s.local))
    case WUnlockExit => s.(mutex := Free, wpc := WExited)
    case _ => AdvanceClient(s)
  }

  function AdvanceClient(s: State): State {
    match s.cpc
    case RunStore(t) => s.(slot := Some(t), cpc := RunSignal, log := Submitted(s.log, t))
    case RunSignal => WakeWorker(s.(cpc := RunTest))
    case RunTest => s.(cpc := if s.slot.Some? then RunWait else RunUnlock)
    case RunWait => s.(mutex := Free, cpc := RunAsleep)
    case RunUnlock => s.(mutex := Free, cpc := Outside)
    case JoinTest => s.(cpc := if s.busy then JoinWait else JoinUnlock)
    case JoinWait => s.(mutex := Free, cpc := JoinAsleep)
    case JoinUnlock => s.(mutex := Free, cpc := Outside)
    case DestroyStore => s.(terminate := true, cpc := DestroyUnlock)
    case DestroyUnlock => s.(mutex := Free, cpc := DestroySignal)
    case DestroySignal => WakeWorker(s.(cpc := DestroyJoin))
    case _ =>
      if s.wpc == WLock then s.(mutex := HeldByWorker, wpc := WSetIdle)
      else if s.wpc == WReacquire then s.(mutex := HeldByWorker, wpc := WTest)
      else match s.cpc
        case RunLock(t) => s.(mutex := HeldByClient, cpc := RunStore(t))
        case RunReacquire => s.(mutex := HeldByClient, cpc := RunTest)
        case JoinLock => s.(mutex := HeldByClient, cpc := JoinTest)
        case JoinReacquire => s.(mutex := HeldByClient, cpc := JoinTest)
        case DestroyLock => s.(mutex := HeldByClient, cpc := DestroyStore)
        case _ => s.(cpc := Destroyed)
  }

  /** No deadlock: while a call is in progress some thread can move without being woken. */
  lemma CallNeverStuck(s: State)
    requires Inv(s)
    requires s.cpc != Outside && s.cpc != Destroyed
    ensures Progress(s, Advance(s))
  {
  }

  // ---------------------------------------------------------------- every call returns

  /** Work left for the worker until it sleeps or exits; a pending task adds a round. */
  function WorkerRank(s: State): nat {
    (if s.slot.Some? then 14 else 0) +
    match s.wpc
    case WAsleep => 0
    case WExited => 0
    case WWait => 1
    case WUnlockExit => 1
    case WTake => 1
    case WTest => 2
    case WReacquire => 3
    case WSignalIdle => 6
    case WSetIdle => 7
    case WLock => 8
    case WBody => 9
    case WUnlock => 10
    case WSignalTaken => 14
  }

  function ClientRank(s: State): nat {
    match s.cpc
    case Outside => 0
    case Destroyed => 0
    case RunUnlock => 1
    case RunAsleep => 1
    case RunWait => 2
    case RunTest => 3
    case RunReacquire => 4
    case RunSignal => 7
    case RunStore(_) => 22
    case RunLock(_) => 23
    case JoinUnlock => 1
    case JoinAsleep => 1
    case JoinWait => 2
    case JoinTest => 3
    case JoinReacquire => 4
    case JoinLock => 4
    case DestroyJoin => 1
    case DestroySignal => 5
    case DestroyUnlock => 6
    case DestroyStore => 7
    case DestroyLock => 8
  }

  function Rank(s: State): nat { WorkerRank(s) + ClientRank(s) }

  lemma RankDecreasesWorker(s: State, s': State)
    requires ControlInv(s)
    requires WorkerMoves(s, s')
    ensures Rank(s') < Rank(s)
  {
  }

  lemma RankDecreasesClient(s: State, s': State)
    requires ControlInv(s)
    requires ClientMoves(s, s')
    ensures Rank(s') < Rank(s)
  {
  }

  lemma RankAfterSpurious(s: State, s': State)
    requires Spurious(s, s')
    ensures Rank(s') == Rank(s) + 3
  {
  }

  /** One step of a call: progress lowers the rank, a spurious wake-up raises it by three. */
  lemma RankStep(s: State, s': State)
    requires Inv(s)
    requires Next(s, s')
    requires s.cpc != Outside
    ensures Inv(s')
    ensures Rank(s') < Rank(s) || (!Progress(s, s') && Rank(s') == Rank(s) + 3)
  {
    InvStep(s, s');
    if WorkerMoves(s, s') {
      RankDecreasesWorker(s, s');
    } else if ClientMoves(s, s') {
      RankDecreasesClient(s, s');
    } else {
      RankAfterSpurious(s, s');
    }
  }

  /** Steps of a run that are spurious wake-ups. */
  ghost function SpuriousSteps(run: seq<State>): nat {
    if |run| <= 1 then 0
    else SpuriousSteps(run[..|run| - 1]) +
         (if Progress(run[|run| - 2], run[|run| - 1]) then 0 else 1)
  }

  /** A stretch of a run during which the client stays inside one call. */
  ghost predicate IsCall(run: seq<State>) {
    && |run| > 0
    && Inv(run[0])
    && (forall i {:trigger run[i]} :: 0 <= i < |run| - 1 ==> run[i].cpc != Outside)
    && (forall i {:trigger run[i]} :: 0 < i < |run| ==> Next(run[i - 1], run[i]))
  }

  lemma {:induction false} CallRank(run: seq<State>)
    requires IsCall(run)
    ensures Inv(run[|run| - 1])
    ensures Rank(run[|run| - 1]) + |run| - 1 <= Rank(run[0]) + 4 * SpuriousSteps(run)
  {
    hide Next, Progress, Inv, Rank;
    if |run| > 1 {
      var prefix := run[..|run| - 1];
      CallRank(prefix);
      RankStep(run[|run| - 2], run[|run| - 1]);
    }
  }

  lemma RankBounds(s: State)
    ensures Rank(s) <= 51
    ensures Inv(s) && s.terminate ==> ExitRank(s) <= 20
  {
  }

  lemma TerminateControl(s: State)
    requires Inv(s) && s.terminate
    ensures s.cpc != Outside
    ensures s.cpc == Destroyed ==> s.wpc == WExited
  {
  }

  /** Run, join and destroy all return: a call that sees k spurious wake-ups takes at most
      51 + 4k steps of both threads together, the task body counting as one, and it cannot
      stop before its end. */
  lemma CallsReturn(run: seq<State>)
    requires IsCall(run)
    ensures |run| - 1 <= 51 + 4 * SpuriousSteps(run)
    ensures var s := run[|run| - 1];
            && Inv(s)
            && (s.cpc == Outside || s.cpc == Destroyed || Progress(s, Advance(s)))
  {
    hide Next, Progress, Inv, Rank, Advance;
    RankBounds(run[0]);
    CallRank(run);
    var s := run[|run| - 1];
    if s.cpc != Outside && s.cpc != Destroyed {
      CallNeverStuck(s);
    }
  }

  /** Once `terminate` is stored the worker never sleeps again, so the bound needs no
      assumption on wake-ups at all: destroy reaches its end within 20 steps. */
  lemma {:induction false} DestroyReturns(run: seq<State>)
    requires IsCall(run)
    requires run[0].terminate
    ensures |run| - 1 <= 20
    ensures var s := run[|run| - 1];
            && Inv(s)
            && s.cpc != Outside
            && (if s.cpc == Destroyed then s.wpc == WExited else Progress(s, Advance(s)))
  {
    hide Next, Progress, Inv, ExitRank, Advance;
    RankBounds(run[0]);
    TerminateRank(run);
    var s := run[|run| - 1];
    TerminateControl(s);
    if s.cpc != Destroyed {
      CallNeverStuck(s);
    }
  }

  function ExitRank(s: State): nat {
    ClientRank(s) + if s.wpc == WAsleep then 4 else WorkerRank(s)
  }

  lemma ExitRankDecreases(s: State, s': State)
    requires Inv(s) && s.terminate
    requires Next(s, s')
    ensures s'.terminate
    ensures ExitRank(s') < ExitRank(s)
  {
    hide Inv, WorkerMoves, ClientMoves, WorkerRank, ClientRank;
    if WorkerMoves(s, s') {
      ExitRankWorker(s, s');
    } else if ClientMoves(s, s') {
      ExitRankClient(s, s');
    } else {
      ExitRankSpurious(s, s');
    }
  }

  lemma ExitRankWorker(s: State, s': State)
    requires Inv(s) && s.terminate
    requires WorkerMoves(s, s')
    ensures s'.terminate && ExitRank(s') < ExitRank(s)
  {
  }

  lemma ExitRankClient(s: State, s': State)
    requires Inv(s) && s.terminate
    requires ClientMoves(s, s')
    ensures s'.terminate && ExitRank(s') < ExitRank(s)
  {
  }

  lemma ExitRankSpurious(s: State, s': State)
    requires Inv(s) && s.terminate
    requires Spurious(s, s') || ClientCalls(s, s')
    ensures s'.terminate && ExitRank(s') < ExitRank(s)
  {
  }

  lemma {:induction false} TerminateRank(run: seq<State>)
    requires IsCall(run)
    requires run[0].terminate
    ensures Inv(run[|run| - 1]) && run[|run| - 1].terminate
    ensures ExitRank(run[|run| - 1]) + |run| - 1 <= ExitRank(run[0])
  {
    hide Next, Inv, ExitRank;
    if |run| > 1 {
      var prefix := run[..|run| - 1];
      TerminateRank(prefix);
      var s, s' := run[|run| - 2], run[|run| - 1];
      InvStep(s, s');
      ExitRankDecreases(s, s');
    }
  }

  // ---------------------------------------------------------------- refinement

  /** The worker a client sees. */
  function View(s: State): Worker {
    Worker(s.slot, s.busy, if InBody(s.wpc) then Some(s.local) else None)
  }

  lemma RefinesWorker(s: State, s': State)
    requires ControlInv(s)
    requires WorkerMoves(s, s')
    ensures View(s') == View(s) || WorkerStep(View(s), View(s'))
  {
  }

  lemma RefinesClient(s: State, s': State)
    requires ControlInv(s)
    requires ClientMoves(s, s') || ClientCalls(s, s') || Spurious(s, s')
    ensures View(s') == View(s) || (s.cpc.RunStore? && Post(View(s), s.cpc.task, View(s')))
  {
  }

  /** Every step of the concrete code is one abstract step or none at all.  Posting happens
      only at the store of run_task; run_task returns only with an empty slot and join_task
      only with an idle worker whose body has returned. */
  lemma Refines(s: State, s': State)
    requires Inv(s)
    requires Next(s, s')
    ensures || View(s') == View(s)
            || WorkerStep(View(s), View(s'))
            || (s.cpc.RunStore? && Post(View(s), s.cpc.task, View(s')))
    ensures s.cpc == RunUnlock ==> View(s).slot.None?
    ensures s.cpc == JoinUnlock ==> !View(s).busy && View(s).running.None?
  {
    hide View, WorkerMoves, ClientMoves, Signal;
    if WorkerMoves(s, s') {
      RefinesWorker(s, s');
    } else {
      RefinesClient(s, s');
    }
    assert s.cpc == RunUnlock ==> s.slot.None?;
    assert s.cpc == JoinUnlock ==> !s.busy && !InBody(s.wpc);
    ViewFields(s);
  }

  lemma ViewFields(s: State)
    ensures View(s).slot == s.slot && View(s).busy == s.busy
    ensures View(s).running.Some? <==> InBody(s.wpc)
  {
  }
}
