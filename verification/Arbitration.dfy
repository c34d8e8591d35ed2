/** Who may use the sensor: the HAL task worker, the navigation worker, or a HAL call that works
    synchronously.  Four threads are interleaved: the HAL client (serialised by the device lock),
    the HAL worker, the navigation worker, and a thread that calls `set_enabled`.

    Each worker is the one specified in `WorkerSpec` and proved of the real code in
    `WorkerThread`.  Everything else is one step per statement that reads or writes shared
    state. */
module Arbitration {
  import opened Bytes
  import opened WorkerSpec

  // ---------------------------------------------------------------- navigation module

  datatype Caller = Client | HalWorker | Setter

  datatype Kind = Pause | Resume | SetEnabled(on: bool)

  /** Position inside fpc_navigation_pause, fpc_navigation_resume or set_enabled, including the
      body of `cancel`. */
  datatype NavPc =
    | Lock | Test
    | CancelPipe | CancelFlag | CancelJoin | CancelReset | CancelDrain
    | Start | AwaitTaken
    | Write | Unlock

  datatype NavCall = NotIn | In(kind: Kind, pc: NavPc)

  /** Position of the navigation worker inside nav_loop. */
  datatype LoopPc = NoLoop | LoopInit | LoopTop | LoopPoll | LoopWait | LoopExit

  datatype Nav = Nav(
    worker: Worker,
    loop: LoopPc,
    lock: Option<Caller>,
    enabled: bool,
    paused: bool,
    cancel: bool,
    pipe: nat)

  /** The branch taken under the lock. */
  function Decide(n: Nav, kind: Kind): NavPc {
    var isRunning := n.enabled && !n.paused;
    match kind
    case Pause => if isRunning then CancelPipe else Write
    case Resume => if n.enabled && n.paused then Start else Write
    case SetEnabled(on) =>
      var shouldRun := on && !n.paused;
      if shouldRun && !isRunning then Start
      else if !shouldRun && isRunning then CancelPipe
      else Write
  }

  predicate NavReady(n: Nav, c: NavCall) {
    && c.In?
    && match c.pc
       case Lock => n.lock.None?
       case CancelJoin => !n.worker.busy
       case CancelDrain => n.pipe > 0
       case Start => n.worker.slot.None?
       case AwaitTaken => n.worker.slot.None?
       case _ => true
  }

  function NavDo(n: Nav, who: Caller, c: NavCall): (Nav, NavCall)
    requires NavReady(n, c)
  {
    match c.pc
    case Lock => (n.(lock := Some(who)), c.(pc := Test))
    case Test => (n, c.(pc := Decide(n, c.kind)))
    case CancelPipe => (n.(pipe := n.pipe + 1), c.(pc := CancelFlag))
    case CancelFlag => (n.(cancel := true), c.(pc := CancelJoin))
    case CancelJoin => (n, c.(pc := CancelReset))
    case CancelReset => (n.(cancel := false), c.(pc := CancelDrain))
    case CancelDrain => (n.(pipe := n.pipe - 1), c.(pc := Write))
    case Start => (n.(worker := Posted(n.worker, 0)), c.(pc := AwaitTaken))
    case AwaitTaken => (n, c.(pc := Write))
    case Write =>
      (match c.kind
       case Pause => n.(paused := true)
       case Resume => n.(paused := false)
       case SetEnabled(on) => n.(enabled := on),
       c.(pc := Unlock))
    case Unlock => (n.(lock := None), NotIn)
  }

  /** nav_loop up to the point where it blocks: it looks at the cancel flag at the top of each
      pass, and its interrupt wait ends when the cancel pipe is readable. */
  predicate LoopMoves(n: Nav, n': Nav) {
    && n' == n.(loop := n'.loop)
    && match n.loop
       case NoLoop => false
       case LoopInit => n'.loop == LoopTop
       case LoopTop => n'.loop == if n.cancel then LoopExit else LoopPoll
       case LoopPoll => n'.loop in {LoopTop, LoopWait, LoopExit}
       case LoopWait => n.pipe > 0 && n'.loop == LoopExit
       case LoopExit => false
  }

  /** The environment: an interrupt arrives, or the wait fails. */
  predicate LoopInterrupted(n: Nav, n': Nav) {
    && n.loop == LoopWait
    && n' == n.(loop := n'.loop)
    && n'.loop in {LoopTop, LoopExit}
  }

  /** Steps of the navigation worker; a failing set-up returns straight from LoopInit. */
  predicate NavWorkerMoves(n: Nav, n': Nav) {
    || LoopMoves(n, n')
    || (&& n' == n.(worker := n'.worker, loop := n'.loop)
        && (|| (Take(n.worker, n'.worker) && n'.loop == LoopInit)
            || (n.loop in {LoopInit, LoopExit} && Return(n.worker, n'.worker) && n'.loop == NoLoop)
            || (BecomeIdle(n.worker, n'.worker) && n'.loop == n.loop)))
  }

  // ---------------------------------------------------------------- HAL

  datatype Owner = OwnedByHal | OwnedByExtension

  /** What the client wants the sensor for once it is idle: do synchronous work and resume,
      submit a task, or only report that the current task is cancelled. */
  datatype Plan = Sync | Async(owner: Owner) | Cancel

  datatype ClientPc =
    | Idle
    | SetFlag(plan: Plan) | SetPipe(plan: Plan) | JoinFirst(plan: Plan)
    | ClearFlag(plan: Plan) | ClearPipe(plan: Plan) | PauseNav(plan: Plan)
    | SyncWork
    | JoinAgain(owner: Owner) | PauseAgain(owner: Owner) | StoreTask(owner: Owner)
    | PostTask | AwaitTask
    | JoinResume(plan: Plan) | ResumeNav(plan: Plan)
    | Report(halTask: bool)

  /** The HAL worker inside hal_work_func: the task body, then fpc_navigation_resume. */
  datatype HalPc = NoTask | Body | Resuming

  /** What the framework sees: a callback made by the body of the n-th task, or ERROR_CANCELED
      reported by fpc_cancel.  For the n-th task, if that one belongs to the HAL; a task of an
      extension is left running although the same error is reported. */
  datatype Event = Callback(task: nat) | Canceled(task: nat) | NotCanceled(task: nat)

  datatype State = State(
    nav: Nav,
    hal: Worker,
    hpc: HalPc,
    cpc: ClientPc,
    cnav: NavCall,
    hnav: NavCall,
    enav: NavCall,
    cancelled: bool,
    pipe: nat,
    owner: Owner,
    tasks: nat,
    events: seq<Event>)

  /** The end of fpc_hal_open: both workers are new, navigation is enabled and paused, and the
      opening call is about to resume navigation. */
  predicate Init(s: State) {
    && s.nav == Nav(NEW_WORKER, NoLoop, None, true, true, false, 0)
    && s.hal == NEW_WORKER && s.hpc == NoTask
    && s.cpc == JoinResume(Sync) && s.cnav == NotIn && s.hnav == NotIn && s.enav == NotIn
    && !s.cancelled && s.pipe == 0 && s.owner == OwnedByHal && s.tasks == 0 && s.events == []
  }

  predicate ClientCalls(s: State, s': State) {
    && s.cpc == Idle
    && s' == s.(cpc := s'.cpc)
    && (|| s'.cpc in {SetFlag(Sync), SetFlag(Async(OwnedByHal)), SetFlag(Async(OwnedByExtension))}
        || s'.cpc == if s.owner == OwnedByHal then SetFlag(Cancel) else Report(false))
  }

  predicate ClientReady(s: State) {
    match s.cpc
    case Idle => false
    case JoinFirst(_) => !s.hal.busy
    case JoinAgain(_) => !s.hal.busy
    case JoinResume(_) => !s.hal.busy
    case ClearPipe(_) => s.pipe > 0
    case PostTask => s.hal.slot.None?
    case AwaitTask => s.hal.slot.None?
    case PauseNav(_) => s.cnav.NotIn? || NavReady(s.nav, s.cnav)
    case PauseAgain(_) => s.cnav.NotIn? || NavReady(s.nav, s.cnav)
    case ResumeNav(_) => s.cnav.NotIn? || NavReady(s.nav, s.cnav)
    case _ => true
  }

  /** The client is inside fpc_navigation_pause or fpc_navigation_resume. */
  predicate InNavCall(s: State) {
    s.cnav.In? && (s.cpc.PauseNav? || s.cpc.PauseAgain? || s.cpc.ResumeNav?)
  }

  function ClientOwn(s: State): State
    requires s.cpc.ClearPipe? ==> s.pipe > 0
  {
    match s.cpc
    case SetFlag(p) => s.(cancelled := true, cpc := SetPipe(p))
    case SetPipe(p) => s.(pipe := s.pipe + 1, cpc := JoinFirst(p))
    case JoinFirst(p) => s.(cpc := ClearFlag(p))
    case ClearFlag(p) => s.(cancelled := false, cpc := ClearPipe(p))
    case ClearPipe(p) => s.(pipe := s.pipe - 1, cpc := PauseNav(p), cnav := In(Pause, Lock))
    case PauseNav(p) =>
      s.(cpc := match p
         case Sync => SyncWork
         case Async(o) => JoinAgain(o)
         case Cancel => JoinResume(Cancel))
    case SyncWork => s.(cpc := JoinResume(Sync))
    case JoinAgain(o) => s.(cpc := PauseAgain(o), cnav := In(Pause, Lock))
    case PauseAgain(o) => s.(cpc := StoreTask(o))
    case StoreTask(o) => s.(owner := o, tasks := s.tasks + 1, cpc := PostTask)
    case PostTask => s.(hal := Posted(s.hal, s.tasks), cpc := AwaitTask)
    case AwaitTask => s.(cpc := Idle)
    case JoinResume(p) => s.(cpc := ResumeNav(p), cnav := In(Resume, Lock))
    case ResumeNav(p) => s.(cpc := if p == Cancel then Report(true) else Idle)
    case Report(h) =>
      s.(cpc := Idle, events := s.events + [if h then Canceled(s.tasks) else NotCanceled(s.tasks)])
    case Idle => s
  }

  function ClientDo(s: State): State
    requires ClientReady(s)
  {
    if InNavCall(s) then
      var (n, c) := NavDo(s.nav, Client, s.cnav);
      s.(nav := n, cnav := c)
    else ClientOwn(s)
  }

  predicate ClientMoves(s: State, s': State) {
    ClientReady(s) && s' == ClientDo(s)
  }

  /** The HAL worker.  A body that is asked to cancel, by flag and by pipe, ends. */
  predicate HalMoves(s: State, s': State) {
    match s.hpc
    case NoTask =>
      && s' == s.(hal := s'.hal, hpc := s'.hpc)
      && (|| (Take(s.hal, s'.hal) && s'.hpc == Body)
          || (BecomeIdle(s.hal, s'.hal) && s'.hpc == NoTask))
    case Body => s.cancelled && s.pipe > 0 && s' == s.(hpc := Resuming, hnav := In(Resume, Lock))
    case Resuming =>
      if s.hnav.In? then
        && NavReady(s.nav, s.hnav)
        && var (n, c) := NavDo(s.nav, HalWorker, s.hnav);
           s' == s.(nav := n, hnav := c)
      else
        s' == s.(hal := s'.hal, hpc := NoTask) && Return(s.hal, s'.hal)
  }

  predicate SetterCalls(s: State, s': State) {
    && s.enav.NotIn?
    && s'.enav in {In(SetEnabled(true), Lock), In(SetEnabled(false), Lock)}
    && s' == s.(enav := s'.enav)
  }

  predicate SetterMoves(s: State, s': State) {
    && NavReady(s.nav, s.enav)
    && var (n, c) := NavDo(s.nav, Setter, s.enav);
       s' == s.(nav := n, enav := c)
  }

  predicate NavigationMoves(s: State, s': State) {
    s' == s.(nav := s'.nav) && NavWorkerMoves(s.nav, s'.nav)
  }

  /** The environment: a body makes a callback or ends by itself, an interrupt reaches
      nav_loop, or a thread starts a new call. */
  predicate EnvironmentMoves(s: State, s': State) {
    || (s.hpc == Body && s' == s.(events := s.events + [Callback(s.tasks)]))
    || (s.hpc == Body && s' == s.(hpc := Resuming, hnav := In(Resume, Lock)))
    || (s' == s.(nav := s'.nav) && LoopInterrupted(s.nav, s'.nav))
    || ClientCalls(s, s')
    || SetterCalls(s, s')
  }

  /** A step of code already under way that waits for nothing outside. */
  predicate Progress(s: State, s': State) {
    ClientMoves(s, s') || HalMoves(s, s') || SetterMoves(s, s') || NavigationMoves(s, s')
  }

  predicate Next(s: State, s': State) {
    Progress(s, s') || EnvironmentMoves(s, s')
  }

  ghost predicate IsRun(run: seq<State>) {
    && |run| > 0
    && Init(run[0])
    && forall i {:trigger run[i]} :: 0 < i < |run| ==> Next(run[i - 1], run[i])
  }

  // ---------------------------------------------------------------- navigation invariant

  /** Between calls the navigation worker is quiet unless navigation is enabled and not
      paused. */
  predicate Settled(n: Nav) {
    n.worker.Quiet() || (n.enabled && !n.paused)
  }

  /** `h` is the call that holds the navigation lock, if any. */
  predicate NavActivity(n: Nav, h: NavCall) {
    h.NotIn? ||
    match h.pc
    case Lock => false
    case Test => Settled(n)
    case CancelPipe => n.enabled && !n.paused && h.kind in {Pause, SetEnabled(false)}
    case CancelFlag => n.enabled && !n.paused && h.kind in {Pause, SetEnabled(false)}
    case CancelJoin => n.enabled && !n.paused && h.kind in {Pause, SetEnabled(false)}
    case CancelReset => n.worker.Quiet() && !n.paused && h.kind in {Pause, SetEnabled(false)}
    case CancelDrain => n.worker.Quiet() && !n.paused && h.kind in {Pause, SetEnabled(false)}
    case Start =>
      && n.worker.Quiet()
      && ((h.kind == Resume && n.enabled && n.paused) || (h.kind == SetEnabled(true) && !n.enabled && !n.paused))
    case AwaitTaken =>
      (h.kind == Resume && n.enabled && n.paused) || (h.kind == SetEnabled(true) && !n.enabled && !n.paused)
    case Write =>
      n.worker.Quiet() || (h.kind == Resume && n.enabled) || (h.kind == SetEnabled(true) && !n.paused)
    case Unlock => Settled(n)
  }

  predicate NavInv(n: Nav, h: NavCall) {
    && (n.worker.running.Some? <==> n.loop != NoLoop)
    && (n.worker.running.Some? ==> n.worker.busy)
    && (n.worker.slot.Some? ==> !n.worker.busy && h.In? && h.pc == AwaitTaken)
    && (n.cancel <==> h.In? && h.pc in {CancelJoin, CancelReset})
    && n.pipe == (if h.In? && h.pc in {CancelFlag, CancelJoin, CancelReset, CancelDrain} then 1 else 0)
    && (h.NotIn? ==> Settled(n))
    && NavActivity(n, h)
  }

  lemma NavCallKeepsInv(n: Nav, who: Caller, h: NavCall)
    requires NavReady(n, h)
    requires h.pc != Lock ==> NavInv(n, h)
    requires h.pc == Lock ==> NavInv(n, NotIn)
    ensures var (n', h') := NavDo(n, who, h); NavInv(n', h')
  {
  }

  lemma NavWorkerKeepsInv(n: Nav, n': Nav, h: NavCall)
    requires NavInv(n, h)
    requires NavWorkerMoves(n, n') || LoopInterrupted(n, n')
    ensures NavInv(n', h)
    ensures n'.lock == n.lock && n'.paused == n.paused && n'.enabled == n.enabled
  {
  }

  // ---------------------------------------------------------------- global invariant

  function CallOf(s: State, who: Caller): NavCall {
    match who
    case Client => s.cnav
    case HalWorker => s.hnav
    case Setter => s.enav
  }

  function Holder(s: State): NavCall {
    if s.nav.lock.Some? then CallOf(s, s.nav.lock.value) else NotIn
  }

  predicate LockInv(s: State) {
    && (s.nav.lock == Some(Client) <==> s.cnav.In? && s.cnav.pc != Lock)
    && (s.nav.lock == Some(HalWorker) <==> s.hnav.In? && s.hnav.pc != Lock)
    && (s.nav.lock == Some(Setter) <==> s.enav.In? && s.enav.pc != Lock)
  }

  predicate CallInv(s: State) {
    && (s.cnav.In? && s.cnav.kind == Pause ==> s.cpc.PauseNav? || s.cpc.PauseAgain?)
    && (s.cnav.In? && s.cnav.kind == Resume ==> s.cpc.ResumeNav?)
    && (s.cnav.In? ==> s.cnav.kind in {Pause, Resume})
    && (s.hnav.In? ==> s.hnav.kind == Resume && s.hpc == Resuming)
    && (s.enav.In? ==> s.enav.kind.SetEnabled?)
  }

  /** The client has joined the HAL worker and has not submitted since. */
  predicate Joined(pc: ClientPc) {
    || pc.ClearFlag? || pc.ClearPipe? || pc.PauseNav? || pc.SyncWork? || pc.JoinAgain?
    || pc.PauseAgain? || pc.StoreTask? || pc.PostTask? || pc.JoinResume? || pc.ResumeNav?
    || pc == Report(true)
  }

  predicate HalInv(s: State) {
    && (s.hal.running.Some? <==> s.hpc != NoTask)
    && (s.hal.running.Some? ==> s.hal.busy && s.hal.running.value == s.tasks)
    && (s.hal.slot.Some? ==> !s.hal.busy && s.cpc == AwaitTask && s.hal.slot.value == s.tasks)
    && (Joined(s.cpc) ==> s.hal.Quiet())
  }

  /** Someone relies on navigation staying paused. */
  predicate NeedsPause(s: State) {
    || s.hpc == Body || s.hal.slot.Some?
    || s.cpc.SyncWork? || s.cpc.JoinAgain? || s.cpc.PauseAgain? || s.cpc.StoreTask?
    || s.cpc.PostTask? || s.cpc.JoinResume?
    || (s.cpc.PauseNav? && (s.cnav.NotIn? || s.cnav.pc == Unlock))
  }

  predicate CancelInv(s: State) {
    && (s.cancelled <==> s.cpc.SetPipe? || s.cpc.JoinFirst? || s.cpc.ClearFlag?)
    && s.pipe == if s.cpc.JoinFirst? || s.cpc.ClearFlag? || s.cpc.ClearPipe? then 1 else 0
  }

  predicate ControlInv(s: State) {
    && LockInv(s) && CallInv(s) && HalInv(s) && CancelInv(s)
    && NavInv(s.nav, Holder(s))
    && (NeedsPause(s) ==> s.nav.paused)
  }

  lemma ControlInvInit(s: State)
    requires Init(s)
    ensures ControlInv(s)
  {
  }

  /** What a navigation call by `who` does to the rest of the state. */
  lemma NavStepFrame(s: State, who: Caller, n: Nav, c: NavCall)
    requires ControlInv(s)
    requires NavReady(s.nav, CallOf(s, who))
    requires (n, c) == NavDo(s.nav, who, CallOf(s, who))
    ensures NavInv(n, if n.lock.Some? then c else NotIn)
    ensures s.nav.lock in {None, Some(who)} && n.lock in {None, Some(who)}
    ensures n.lock == Some(who) <==> c.In? && c.pc != Lock
    ensures CallOf(s, who).In? && (c.In? ==> c.kind == CallOf(s, who).kind)
    ensures who != HalWorker && !(who == Client && s.cpc.ResumeNav?) ==> s.nav.paused ==> n.paused
    ensures c.In? && c.pc == Unlock && c.kind == Pause ==> n.paused
    ensures c.NotIn? ==> n.paused == s.nav.paused && CallOf(s, who).pc == Unlock
  {
    var h := CallOf(s, who);
    assert h.pc == Lock ==> Holder(s) == NotIn;
    assert h.pc != Lock ==> Holder(s) == h;
    NavCallKeepsInv(s.nav, who, h);
  }

  lemma ClientNavKeepsControl(s: State, s': State)
    requires ControlInv(s) && InNavCall(s)
    requires ClientMoves(s, s')
    ensures ControlInv(s')
  {
    hide NavInv, NavReady;
    assert s' == s.(nav := s'.nav, cnav := s'.cnav);
    NavStepFrame(s, Client, s'.nav, s'.cnav);
  }

  /** Steps of the client outside navigation calls: it may enter one, but not touch the lock. */
  lemma ClientOwnShape(s: State)
    requires s.cpc.ClearPipe? ==> s.pipe > 0
    ensures var s' := ClientOwn(s);
            && s'.nav == s.nav && s'.hnav == s.hnav && s'.enav == s.enav && s'.hpc == s.hpc
            && (|| (s'.cnav == s.cnav && !s'.cpc.PauseNav? && !s'.cpc.PauseAgain? && !s'.cpc.ResumeNav?)
                || (s'.cnav == In(Pause, Lock) && (s'.cpc.PauseNav? || s'.cpc.PauseAgain?))
                || (s'.cnav == In(Resume, Lock) && s'.cpc.ResumeNav?))
  {
  }

  lemma ClientOwnKeepsCalls(s: State, s': State)
    requires ControlInv(s) && !InNavCall(s)
    requires ClientReady(s) && s' == ClientOwn(s)
    ensures s'.nav == s.nav && LockInv(s') && CallInv(s') && Holder(s') == Holder(s)
  {
    hide NavInv, HalInv, CancelInv, NeedsPause, ClientOwn;
    ClientOwnShape(s);
  }

  lemma ClientOwnKeepsHal(s: State, s': State)
    requires ControlInv(s) && !InNavCall(s)
    requires ClientReady(s) && s' == ClientOwn(s)
    ensures HalInv(s') && CancelInv(s')
  {
    hide NavInv, NeedsPause;
  }

  /** The client comes to rely on the pause only from a point where it already did. */
  lemma ClientOwnKeepsPause(s: State, s': State)
    requires ControlInv(s) && !InNavCall(s)
    requires ClientReady(s) && s' == ClientOwn(s)
    ensures NeedsPause(s') ==> s'.nav.paused
  {
    hide NavInv, CancelInv, LockInv, HalInv;
    ClientOwnShape(s);
    assert s.cnav.NotIn?;
    assert NeedsPause(s') ==> NeedsPause(s);
  }

  lemma ClientOwnKeepsControl(s: State, s': State)
    requires ControlInv(s) && !InNavCall(s)
    requires ClientMoves(s, s')
    ensures ControlInv(s')
  {
    hide NavInv, ClientReady, ClientOwn, Holder, LockInv, CallInv, HalInv, CancelInv, NeedsPause;
    ClientOwnKeepsCalls(s, s');
    ClientOwnKeepsHal(s, s');
    ClientOwnKeepsPause(s, s');
  }

  lemma ClientKeepsControl(s: State, s': State)
    requires ControlInv(s)
    requires ClientMoves(s, s')
    ensures ControlInv(s')
  {
    hide ControlInv, ClientMoves;
    if InNavCall(s) {
      ClientNavKeepsControl(s, s');
    } else {
      ClientOwnKeepsControl(s, s');
    }
  }

  lemma HalKeepsControl(s: State, s': State)
    requires ControlInv(s)
    requires HalMoves(s, s')
    ensures ControlInv(s')
  {
    if s.hnav.In? {
      NavStepFrame(s, HalWorker, s'.nav, s'.hnav);
    }
  }

  lemma SetterKeepsControl(s: State, s': State)
    requires ControlInv(s)
    requires SetterMoves(s, s')
    ensures ControlInv(s')
  {
    hide NavInv, NavReady;
    NavStepFrame(s, Setter, s'.nav, s'.enav);
  }

  lemma NavigationKeepsControl(s: State, s': State)
    requires ControlInv(s)
    requires s' == s.(nav := s'.nav)
    requires NavWorkerMoves(s.nav, s'.nav) || LoopInterrupted(s.nav, s'.nav)
    ensures ControlInv(s')
  {
    hide NavInv, NavWorkerMoves, LoopInterrupted;
    NavWorkerKeepsInv(s.nav, s'.nav, Holder(s));
  }

  lemma CallsKeepControl(s: State, s': State)
    requires ControlInv(s)
    requires ClientCalls(s, s') || SetterCalls(s, s') || (s.hpc == Body && EnvironmentMoves(s, s'))
    requires s'.nav == s.nav
    ensures ControlInv(s')
  {
    hide NavInv, LoopInterrupted;
  }

  lemma ControlInvStep(s: State, s': State)
    requires ControlInv(s)
    requires Next(s, s')
    ensures ControlInv(s')
  {
    hide ControlInv, ClientMoves, HalMoves, SetterMoves, NavWorkerMoves, LoopInterrupted;
    if ClientMoves(s, s') {
      ClientKeepsControl(s, s');
    } else if HalMoves(s, s') {
      HalKeepsControl(s, s');
    } else if SetterMoves(s, s') {
      SetterKeepsControl(s, s');
    } else if NavigationMoves(s, s') || (s' == s.(nav := s'.nav) && LoopInterrupted(s.nav, s'.nav)) {
      NavigationKeepsControl(s, s');
    } else {
      CallsKeepControl(s, s');
    }
  }

  // ---------------------------------------------------------------- events

  /** The task most recently announced may still make callbacks. */
  predicate TaskLive(s: State) {
    s.hal.running.Some? || s.hal.slot.Some? || s.cpc == PostTask
  }

  ghost predicate EventInv(s: State) {
    && (forall i, j :: 0 <= i < j < |s.events| && s.events[i].Canceled? && s.events[j].Callback?
          ==> s.events[i].task < s.events[j].task)
    && (forall i :: 0 <= i < |s.events| && s.events[i].Canceled? ==>
          s.events[i].task <= s.tasks && (TaskLive(s) ==> s.events[i].task < s.tasks))
  }

  /** The ways a step can treat the event log. */
  predicate EventStep(s: State, s': State) {
    || (s'.events == s.events && s'.tasks == s.tasks && (TaskLive(s') ==> TaskLive(s)))
    || (s'.events == s.events && s'.tasks == s.tasks + 1)
    || (s'.events == s.events + [Callback(s.tasks)] && s'.tasks == s.tasks && TaskLive(s))
    || (s'.events == s.events + [Canceled(s.tasks)] && s'.tasks == s.tasks && !TaskLive(s'))
    || (s'.events == s.events + [NotCanceled(s.tasks)] && s'.tasks == s.tasks && (TaskLive(s') ==> TaskLive(s)))
  }

  lemma ClientEventStep(s: State, s': State)
    requires ControlInv(s)
    requires ClientMoves(s, s')
    ensures EventStep(s, s')
  {
    hide NavInv, NavDo, NavReady, LockInv, CallInv, CancelInv, NeedsPause;
  }

  lemma OtherEventStep(s: State, s': State)
    requires ControlInv(s)
    requires HalMoves(s, s') || SetterMoves(s, s') || NavigationMoves(s, s') || EnvironmentMoves(s, s')
    ensures EventStep(s, s')
  {
    hide NavInv, NavDo, NavReady, NavWorkerMoves, LoopInterrupted, LockInv, CallInv, CancelInv, NeedsPause;
  }

  lemma EventsKept(s: State, s': State)
    requires ControlInv(s)
    requires Next(s, s')
    ensures EventStep(s, s')
  {
    hide ControlInv, ClientMoves, HalMoves, SetterMoves, NavigationMoves, EnvironmentMoves, EventStep;
    if ClientMoves(s, s') {
      ClientEventStep(s, s');
    } else {
      OtherEventStep(s, s');
    }
  }

  lemma EventInvStep(s: State, s': State)
    requires ControlInv(s) && EventInv(s)
    requires Next(s, s')
    ensures EventInv(s')
  {
    hide ControlInv, Next;
    EventsKept(s, s');
  }

  ghost predicate Inv(s: State) { ControlInv(s) && EventInv(s) }

  lemma {:induction false} InvHolds(run: seq<State>)
    requires IsRun(run)
    ensures Inv(run[|run| - 1])
  {
    hide ControlInv, Next, EventInv, Init;
    if |run| == 1 {
      ControlInvInit(run[0]);
      EventInvInit(run[0]);
    } else {
      var prefix := run[..|run| - 1];
      InvHolds(prefix);
      ControlInvStep(prefix[|prefix| - 1], run[|run| - 1]);
      EventInvStep(prefix[|prefix| - 1], run[|run| - 1]);
    }
  }

  lemma EventInvInit(s: State)
    requires Init(s)
    ensures EventInv(s)
  {
  }

  // ---------------------------------------------------------------- main results

  predicate TaskRuns(s: State) { s.hpc == Body }

  predicate NavLoopRuns(s: State) { s.nav.loop != NoLoop }

  predicate ClientWorks(s: State) { s.cpc == SyncWork }

  /** The sensor has at most one user, and between navigation calls the navigation worker is
      quiet unless navigation is enabled and not paused. */
  lemma SensorExclusive(run: seq<State>)
    requires IsRun(run)
    ensures var s := run[|run| - 1];
            && !(TaskRuns(s) && NavLoopRuns(s))
            && !(TaskRuns(s) && ClientWorks(s))
            && !(ClientWorks(s) && NavLoopRuns(s))
            && (s.nav.lock.None? ==> Settled(s.nav))
            && (s.hal.running.Some? ==> s.hal.running.value == s.tasks)
  {
    InvHolds(run);
  }

  /** Cancellation never leaks into the next task: a worker takes a task only with the cancel
      flag clear and the cancel pipe empty, and no clear ever reads from an empty pipe. */
  lemma CancelNeverLeaks(run: seq<State>)
    requires IsRun(run)
    ensures var s := run[|run| - 1];
            && (s.hal.slot.Some? ==> !s.cancelled && s.pipe == 0)
            && (s.nav.worker.slot.Some? ==> !s.nav.cancel && s.nav.pipe == 0)
            && (s.cpc.ClearPipe? ==> s.pipe == 1)
            && (Holder(s).In? && Holder(s).pc == CancelDrain ==> s.nav.pipe == 1)
            && s.pipe <= 1 && s.nav.pipe <= 1
  {
    InvHolds(run);
  }

  /** Every fpc_cancel ends with exactly one report: for a task of the HAL after it has gone quiet,
      and otherwise without touching it. */
  lemma CancelReported(s: State, s': State)
    requires ControlInv(s) && s.cpc.Report? && ClientMoves(s, s')
    ensures s'.cpc == Idle && |s'.events| == |s.events| + 1
    ensures s.cpc.halTask ==> s.hal.Quiet() && s'.events == s.events + [Canceled(s.tasks)]
    ensures !s.cpc.halTask ==> s'.hal == s.hal && s'.events == s.events + [NotCanceled(s.tasks)]
  {
    hide NavInv;
  }

  /** Once fpc_cancel has reported CANCELED for a task of the HAL, that task and every earlier
      one stay silent. */
  lemma SilentAfterCancel(run: seq<State>, i: nat, j: nat)
    requires IsRun(run)
    requires var e := run[|run| - 1].events;
             i < j < |e| && e[i].Canceled? && e[j].Callback?
    ensures var e := run[|run| - 1].events; e[i].task < e[j].task
  {
    InvHolds(run);
  }

  // ---------------------------------------------------------------- no deadlock

  lemma NavWorkerCanMove(n: Nav, h: NavCall) returns (n': Nav)
    requires NavInv(n, h)
    requires h.In? && !NavReady(n, h)
    ensures NavWorkerMoves(n, n')
  {
    if n.worker.slot.Some? {
      n' := n.(worker := Worker(None, true, n.worker.slot), loop := LoopInit);
    } else if n.worker.running.None? {
      n' := n.(worker := n.worker.(busy := false));
    } else {
      match n.loop {
        case LoopInit => n' := n.(loop := LoopTop);
        case LoopTop => n' := n.(loop := LoopExit);
        case LoopPoll => n' := n.(loop := LoopTop);
        case LoopWait => n' := n.(loop := LoopExit);
        case LoopExit => n' := n.(worker := n.worker.(running := None), loop := NoLoop);
      }
    }
  }

  /** A navigation call under way can be advanced by its caller, by the lock holder or by the
      navigation worker. */
  lemma NavCallCanMove(s: State, who: Caller) returns (s': State)
    requires ControlInv(s)
    requires CallOf(s, who).In?
    ensures Progress(s, s')
  {
    hide NavInv, NavWorkerMoves;
    var w := if s.nav.lock.Some? then s.nav.lock.value else who;
    var h := CallOf(s, w);
    if !NavReady(s.nav, h) {
      var n := NavWorkerCanMove(s.nav, h);
      s' := s.(nav := n);
    } else {
      var (n, c) := NavDo(s.nav, w, h);
      match w {
        case Client => s' := s.(nav := n, cnav := c);
        case HalWorker => s' := s.(nav := n, hnav := c);
        case Setter => s' := s.(nav := n, enav := c);
      }
    }
  }

  /** A HAL task that is asked to cancel, or that has ended, lets the worker become idle. */
  lemma HalCanMove(s: State) returns (s': State)
    requires ControlInv(s)
    requires s.hal.busy || s.hal.slot.Some?
    requires s.hpc == Body ==> s.cancelled && s.pipe > 0
    ensures Progress(s, s')
  {
    match s.hpc {
      case NoTask =>
        if s.hal.busy {
          s' := s.(hal := s.hal.(busy := false));
        } else {
          s' := s.(hal := Worker(None, true, s.hal.slot), hpc := Body);
        }
      case Body => s' := s.(hpc := Resuming, hnav := In(Resume, Lock));
      case Resuming =>
        if s.hnav.In? {
          s' := NavCallCanMove(s, HalWorker);
        } else {
          s' := s.(hal := s.hal.(running := None), hpc := NoTask);
        }
    }
  }

  /** No call into the HAL or the navigation module ever deadlocks: while one is under way,
      some thread can move without an interrupt, a finger or a new call. */
  lemma CallsNeverStuck(run: seq<State>) returns (s': State)
    requires IsRun(run)
    requires run[|run| - 1].cpc != Idle || run[|run| - 1].enav.In?
    ensures Progress(run[|run| - 1], s')
  {
    hide NavInv, NavDo;
    InvHolds(run);
    var s := run[|run| - 1];
    if s.enav.In? {
      s' := NavCallCanMove(s, Setter);
    } else if s.cnav.In? {
      s' := NavCallCanMove(s, Client);
    } else if ClientReady(s) {
      s' := ClientDo(s);
    } else {
      s' := HalCanMove(s);
    }
  }

  // ---------------------------------------------------------------- waiting for a cancelled loop

  /** Steps left to the navigation worker once its loop is cancelled. */
  function LoopRank(n: Nav): nat {
    match n.loop
    case NoLoop => if n.worker.busy then 1 else 0
    case LoopExit => 2
    case LoopTop => 3
    case LoopWait => 4
    case LoopPoll => 5
    case LoopInit => 5
  }

  /** A call waits inside `cancel` for the navigation worker. */
  predicate AwaitsLoop(s: State) { Holder(s).In? && Holder(s).pc == CancelJoin }

  lemma CancelledLoopStep(n: Nav, n': Nav, h: NavCall)
    requires NavInv(n, h) && h.In? && h.pc == CancelJoin
    requires NavWorkerMoves(n, n') || LoopInterrupted(n, n')
    ensures LoopRank(n') < LoopRank(n)
  {
  }

  /** While the call waits, only the navigation worker touches the navigation state. */
  lemma AwaitedByHolder(s: State, who: Caller)
    requires ControlInv(s) && AwaitsLoop(s)
    requires NavReady(s.nav, CallOf(s, who))
    ensures s.nav.lock == Some(who)
    ensures var (n, c) := NavDo(s.nav, who, CallOf(s, who)); n.lock == Some(who) && c.pc == CancelReset
  {
    hide NavInv;
  }

  lemma AwaitingStep(s: State, s': State)
    requires ControlInv(s) && Next(s, s') && AwaitsLoop(s) && AwaitsLoop(s')
    ensures s'.nav == s.nav || LoopRank(s'.nav) < LoopRank(s.nav)
  {
    hide NavInv, NavWorkerMoves, LoopInterrupted, NavReady, NavDo, LoopRank, HalInv, CancelInv, NeedsPause;
    if NavWorkerMoves(s.nav, s'.nav) || LoopInterrupted(s.nav, s'.nav) {
      CancelledLoopStep(s.nav, s'.nav, Holder(s));
    } else if ClientMoves(s, s') {
      if InNavCall(s) {
        AwaitedByHolder(s, Client);
      } else {
        ClientOwnShape(s);
      }
    } else if HalMoves(s, s') {
      if s.hpc == Resuming && s.hnav.In? {
        AwaitedByHolder(s, HalWorker);
      }
    } else if SetterMoves(s, s') {
      AwaitedByHolder(s, Setter);
    }
  }

  /** Steps that change the navigation state. */
  function NavSteps(run: seq<State>): nat {
    if |run| <= 1 then 0
    else NavSteps(run[..|run| - 1]) + if run[|run| - 2].nav == run[|run| - 1].nav then 0 else 1
  }

  /** A pause, or a switching off, waits for at most five steps of the navigation worker: as long
      as the call waits, those are the only steps that touch the navigation state, interrupts
      included, and after them the worker is idle. */
  lemma {:induction false} CancelledLoopEnds(run: seq<State>)
    requires |run| > 0 && ControlInv(run[0])
    requires forall i {:trigger run[i]} :: 0 <= i < |run| ==> AwaitsLoop(run[i])
    requires forall i {:trigger run[i]} :: 0 < i < |run| ==> Next(run[i - 1], run[i])
    ensures ControlInv(run[|run| - 1])
    ensures NavSteps(run) + LoopRank(run[|run| - 1].nav) <= LoopRank(run[0].nav) <= 5
    ensures NavSteps(run) == 5 ==> NavReady(run[|run| - 1].nav, Holder(run[|run| - 1]))
  {
    hide ControlInv, Next, AwaitsLoop;
    if |run| > 1 {
      var prefix := run[..|run| - 1];
      CancelledLoopEnds(prefix);
      ControlInvStep(run[|run| - 2], run[|run| - 1]);
      AwaitingStep(run[|run| - 2], run[|run| - 1]);
    }
    IdleIsReady(run[|run| - 1]);
  }

  lemma IdleIsReady(s: State)
    requires ControlInv(s) && AwaitsLoop(s)
    ensures LoopRank(s.nav) == 0 ==> NavReady(s.nav, Holder(s))
  {
  }

  // ---------------------------------------------------------------- navigation comes back

  /** Navigation is meant to run. */
  predicate On(n: Nav) { n.enabled && !n.paused }

  /** The step hands a loop to the navigation worker. */
  predicate Posts(s: State, s': State) { s.nav.worker.slot.None? && s'.nav.worker.slot.Some? }

  /** The step turns navigation on. */
  predicate TurnsOn(s: State, s': State) { !On(s.nav) && On(s'.nav) }

  /** What the fields will be once the call has written its own. */
  function Written(n: Nav, kind: Kind): Nav {
    match kind
    case Pause => n.(paused := true)
    case Resume => n.(paused := false)
    case SetEnabled(on) => n.(enabled := on)
  }

  /** A loop has been handed over by a call that is yet to turn navigation on. */
  predicate Ahead(n: Nav, h: NavCall) {
    h.In? && (h.pc == AwaitTaken || (h.pc == Write && !On(n) && On(Written(n, h.kind))))
  }

  function Count(b: bool): nat { if b then 1 else 0 }

  /** One step of a navigation call by its caller. */
  lemma CallPosts(n: Nav, who: Caller, h: NavCall)
    requires NavReady(n, h)
    requires h.pc != Lock ==> NavInv(n, h)
    requires h.pc == Lock ==> NavInv(n, NotIn)
    ensures var (n', h') := NavDo(n, who, h);
            Count(Ahead(n, h)) + Count(n.worker.slot.None? && n'.worker.slot.Some?)
            == Count(Ahead(n', h')) + Count(!On(n) && On(n'))
  {
  }

  /** The call of `who` does that to the whole state. */
  lemma CallerPosts(s: State, who: Caller, n: Nav, c: NavCall)
    requires ControlInv(s)
    requires NavReady(s.nav, CallOf(s, who))
    requires (n, c) == NavDo(s.nav, who, CallOf(s, who))
    ensures Count(Ahead(s.nav, Holder(s))) + Count(s.nav.worker.slot.None? && n.worker.slot.Some?)
            == Count(Ahead(n, if n.lock.Some? then c else NotIn)) + Count(!On(s.nav) && On(n))
    ensures n.lock in {None, Some(who)}
  {
    hide NavInv, NavDo, On, Written;
    var h := CallOf(s, who);
    assert h.pc == Lock ==> Holder(s) == NotIn;
    assert h.pc != Lock ==> Holder(s) == h;
    CallPosts(s.nav, who, h);
    NavStepFrame(s, who, n, c);
  }

  lemma WorkerPostsNothing(n: Nav, n': Nav, h: NavCall)
    requires NavInv(n, h)
    requires NavWorkerMoves(n, n') || LoopInterrupted(n, n')
    ensures On(n') == On(n) && Ahead(n', h) == Ahead(n, h) && n'.lock == n.lock
    ensures n'.worker.slot.Some? ==> n.worker.slot.Some?
  {
  }

  /** Posting and turning on go together, except while the call that does both is between them. */
  lemma PostStep(s: State, s': State)
    requires ControlInv(s) && Next(s, s')
    ensures Count(Ahead(s.nav, Holder(s))) + Count(Posts(s, s'))
            == Count(Ahead(s'.nav, Holder(s'))) + Count(TurnsOn(s, s'))
  {
    hide NavInv, NavWorkerMoves, LoopInterrupted, ClientMoves, HalMoves, SetterMoves, LockInv, CallInv, HalInv,
         CancelInv, NeedsPause, On, Ahead, Posts, TurnsOn;
    if (NavWorkerMoves(s.nav, s'.nav) || LoopInterrupted(s.nav, s'.nav)) && s' == s.(nav := s'.nav) {
      WorkerPostStep(s, s');
    } else if ClientMoves(s, s') {
      ClientPostStep(s, s');
    } else if HalMoves(s, s') {
      HalPostStep(s, s');
    } else if SetterMoves(s, s') {
      SetterPostStep(s, s');
    } else {
      CallPostStep(s, s');
    }
  }

  /** What `PostStep` says of one step. */
  predicate Balanced(s: State, s': State) {
    Count(Ahead(s.nav, Holder(s))) + Count(Posts(s, s')) == Count(Ahead(s'.nav, Holder(s'))) + Count(TurnsOn(s, s'))
  }

  lemma WorkerPostStep(s: State, s': State)
    requires ControlInv(s) && s' == s.(nav := s'.nav)
    requires NavWorkerMoves(s.nav, s'.nav) || LoopInterrupted(s.nav, s'.nav)
    ensures Balanced(s, s')
  {
    hide NavInv, NavWorkerMoves, LoopInterrupted, LockInv, CallInv, HalInv, CancelInv, NeedsPause, On, Ahead;
    WorkerPostsNothing(s.nav, s'.nav, Holder(s));
  }

  lemma ClientPostStep(s: State, s': State)
    requires ControlInv(s) && ClientMoves(s, s')
    ensures Balanced(s, s')
  {
    hide NavInv, NavReady, NavDo, HalInv, CancelInv, NeedsPause, On, Ahead;
    if InNavCall(s) {
      CallerPosts(s, Client, s'.nav, s'.cnav);
    } else {
      ClientOwnShape(s);
    }
  }

  lemma HalPostStep(s: State, s': State)
    requires ControlInv(s) && HalMoves(s, s')
    ensures Balanced(s, s')
  {
    hide NavInv, NavReady, NavDo, CancelInv, NeedsPause, On, Ahead;
    if s.hpc == Resuming && s.hnav.In? {
      CallerPosts(s, HalWorker, s'.nav, s'.hnav);
    }
  }

  lemma SetterPostStep(s: State, s': State)
    requires ControlInv(s) && SetterMoves(s, s')
    ensures Balanced(s, s')
  {
    hide NavInv, NavReady, NavDo, HalInv, CancelInv, NeedsPause, On, Ahead;
    CallerPosts(s, Setter, s'.nav, s'.enav);
  }

  lemma CallPostStep(s: State, s': State)
    requires ControlInv(s) && EnvironmentMoves(s, s') && !(LoopInterrupted(s.nav, s'.nav) && s' == s.(nav := s'.nav))
    ensures Balanced(s, s')
  {
    hide NavInv, LoopInterrupted, CancelInv, NeedsPause, On, Ahead;
  }

  /** Loops handed to the navigation worker in a run. */
  function LoopsPosted(run: seq<State>): nat {
    if |run| <= 1 then 0
    else LoopsPosted(run[..|run| - 1]) + Count(Posts(run[|run| - 2], run[|run| - 1]))
  }

  /** Times navigation was turned on in a run. */
  function TimesTurnedOn(run: seq<State>): nat {
    if |run| <= 1 then 0
    else TimesTurnedOn(run[..|run| - 1]) + Count(TurnsOn(run[|run| - 2], run[|run| - 1]))
  }

  lemma {:induction false} LoopsCounted(run: seq<State>)
    requires IsRun(run)
    ensures var s := run[|run| - 1];
            LoopsPosted(run) == TimesTurnedOn(run) + Count(Ahead(s.nav, Holder(s)))
  {
    hide ControlInv, Next, EventInv, Init, Posts, TurnsOn, Ahead;
    if |run| == 1 {
      NotAheadAtFirst(run[0]);
    } else {
      var prefix := run[..|run| - 1];
      LoopsCounted(prefix);
      InvHolds(prefix);
      PostStep(run[|run| - 2], run[|run| - 1]);
    }
  }

  lemma NotAheadAtFirst(s: State)
    requires Init(s)
    ensures !Ahead(s.nav, Holder(s))
  {
  }

  /** Whenever no navigation call is under way, nav_loop has been handed to its worker exactly as
      often as navigation was turned on: by a resume, by switching it on, and by nothing else. */
  lemma LoopForEachTurningOn(run: seq<State>)
    requires IsRun(run)
    ensures var s := run[|run| - 1];
            s.nav.lock.None? ==> LoopsPosted(run) == TimesTurnedOn(run)
  {
    LoopsCounted(run);
  }

  // ---------------------------------------------------------------- nobody forgets to resume

  /** A resume is under way and yet to take effect. */
  predicate ResumePending(s: State) {
    || (s.cpc.ResumeNav? && s.cnav.In? && s.cnav.pc != Unlock)
    || (s.hpc == Resuming && s.hnav.In? && s.hnav.pc != Unlock)
  }

  /** Navigation is paused only for someone. */
  predicate PauseInv(s: State) {
    s.nav.paused ==> NeedsPause(s) || ResumePending(s)
  }

  /** How a step of a call changes the pause. */
  lemma CallPauses(n: Nav, who: Caller, h: NavCall)
    requires NavReady(n, h)
    ensures var (n', h') := NavDo(n, who, h);
            && (n'.paused && !n.paused ==> h.kind == Pause && h'.In? && h'.pc == Unlock)
            && (h.pc != Unlock && (h'.NotIn? || h'.pc == Unlock) && h.kind == Resume ==> !n'.paused)
            && (h'.NotIn? <==> h.pc == Unlock) && (h'.In? ==> h'.kind == h.kind)
  {
  }

  lemma PauseStep(s: State, s': State)
    requires ControlInv(s) && PauseInv(s) && Next(s, s')
    ensures PauseInv(s')
  {
    hide NavInv, NavDo, NavWorkerMoves, LoopInterrupted, LockInv, CancelInv;
    if NavWorkerMoves(s.nav, s'.nav) && s' == s.(nav := s'.nav) {
      NavWorkerKeepsInv(s.nav, s'.nav, Holder(s));
    } else if LoopInterrupted(s.nav, s'.nav) && s' == s.(nav := s'.nav) {
      NavWorkerKeepsInv(s.nav, s'.nav, Holder(s));
    } else if ClientMoves(s, s') {
      ClientPauseStep(s, s');
    } else if HalMoves(s, s') {
      if s.hpc == Resuming && s.hnav.In? {
        CallPauses(s.nav, HalWorker, s.hnav);
      }
    } else if SetterMoves(s, s') {
      CallPauses(s.nav, Setter, s.enav);
    }
  }

  lemma ClientPauseStep(s: State, s': State)
    requires ControlInv(s) && PauseInv(s) && ClientMoves(s, s')
    ensures PauseInv(s')
  {
    hide NavInv, NavDo, LockInv, CancelInv;
    if InNavCall(s) {
      var (n, c) := NavDo(s.nav, Client, s.cnav);
      assert s' == s.(nav := n, cnav := c);
      CallPauses(s.nav, Client, s.cnav);
      assert s.cpc.PauseAgain? || s.hal.Quiet();
    } else {
      ClientOwnShape(s);
    }
  }

  lemma {:induction false} PauseHolds(run: seq<State>)
    requires IsRun(run)
    ensures PauseInv(run[|run| - 1])
  {
    hide ControlInv, Next, EventInv, Init, PauseInv;
    if |run| == 1 {
      PausedAtFirst(run[0]);
    } else {
      var prefix := run[..|run| - 1];
      PauseHolds(prefix);
      InvHolds(prefix);
      PauseStep(run[|run| - 2], run[|run| - 1]);
    }
  }

  lemma PausedAtFirst(s: State)
    requires Init(s)
    ensures PauseInv(s)
  {
  }

  /** Navigation comes back: when no call of the client is under way and the HAL worker has nothing
      to do, navigation is not paused, and while it is enabled the last of its loops has been handed
      to the worker and not been cancelled. */
  lemma NavigationComesBack(run: seq<State>)
    requires IsRun(run)
    ensures var s := run[|run| - 1];
            s.cpc == Idle && s.hal.Quiet() ==>
              && !s.nav.paused
              && (s.nav.lock.None? ==> LoopsPosted(run) == TimesTurnedOn(run))
              && (s.nav.lock.None? && !s.nav.enabled ==> s.nav.worker.Quiet())
              && (s.nav.lock.None? ==> !s.nav.cancel && s.nav.pipe == 0)
  {
    InvHolds(run);
    PauseHolds(run);
    LoopForEachTurningOn(run);
  }
}
