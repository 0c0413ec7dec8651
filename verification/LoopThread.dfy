/** The life of an EventLoopThread and its EventLoop (include/libhv_evpp/EventLoopThread.h and
    run/stop of include/libhv_evpp/EventLoop.h) as interleaved atomic steps of its threads:
    the one that starts, the loop thread it creates, one that stops, and any number that call
    start again. */
module LoopThread {
  import opened Options
  import opened Runs
  import opened Statuses

  /** The loop thread, in EventLoopThread::loop_thread and EventLoop::run. */
  datatype Worker =
    | Absent | Begin | QueuePre | EnterRun | SetRunning | InLoop | LoopReturned | Check | RunPost | SetStopped | Done

  /** The thread in EventLoopThread::start. */
  datatype Starter = Outside | Spawn | Waiting | Back

  /** The thread in EventLoopThread::stop and EventLoop::stop. */
  datatype Stopper = Before | SetStopping | LoopStop | AskStop | DropLoop | Join | After

  /** Another call of start: it has read the status for the first time, or has decided to start,
      or has set the status and is about to create. */
  datatype Again = ReadOnce(first: KStatus) | Decided | ToCreate

  datatype World = World(
    waits: bool,             // start is called with wait_thread_started
    thread: KStatus,         // status of the EventLoopThread
    loop: KStatus,           // status of the EventLoop
    loopGone: bool,          // loop_ == NULL
    stopAsked: bool,         // hloop_stop has been called
    preQueued: bool,         // the pre functor is in the loop's queue
    joinable: bool,          // thread_ holds a thread nobody has joined
    worker: Worker,
    second: Worker,          // the thread a later start has created
    starter: Starter,
    stopper: Stopper,
    again: map<nat, Again>,
    crashed: bool,           // a thread still joinable has been replaced, which ends the program
    freed: bool,             // history: stop has freed a loop that was not running yet
    freedEarly: bool,        // history: and the loop thread had not queued the pre functor yet
    created: nat,            // history: threads created
    lateReads: nat,          // history: second reads of a repeated start after the thread's end
    restarts: nat,           // history: how often a repeated start has set the status
    preRuns: nat,
    postRuns: nat,
    checkFailed: bool,       // the assertion that the loop has stopped has failed
    postEarly: bool)         // post has run while the loop was not stopped

  function Init(waits: bool): World {
    World(waits, Initialized, Initialized, false, false, false, false, Absent, Absent, Outside, Before,
          map[], false, false, false, 0, 0, 0, 0, 0, false, false)
  }

  datatype Action =
    | StarterStep
    | WorkerStep
    | SecondStep
    | RunPre                 // the C loop delivers the queued functor, which returns 0
    | StopperStep
    | AgainRead(id: nat)
    | AgainStep(id: nat)

  /** thread_ is given a new thread; a joinable one that it held cannot be dropped. */
  function Create(w: World): World {
    var v := w.(created := w.created + 1);
    if w.joinable then v.(crashed := true)
    else if w.worker.Absent? then v.(joinable := true, worker := Begin)
    else v.(joinable := true, second := Begin)
  }

  function StarterNext(w: World): Option<World> {
    match w.starter
    case Outside =>
      if AlreadyStarted(w.thread, w.thread) then Some(w.(starter := Back))
      else Some(w.(thread := Starting, starter := Spawn))
    case Spawn => Some(Create(w).(starter := if w.waits then Waiting else Back))
    case Waiting => if Rank(w.loop) < Rank(Running) then None else Some(w.(starter := Back))
    case Back => None
  }

  /** One step of a loop thread at p: the state after it, and where the thread is then. */
  function ThreadNext(w: World, p: Worker): Option<(World, Worker)> {
    match p
    case Absent => None
    case Begin => Some((w.(thread := Started), QueuePre))
    case QueuePre => Some((w.(preQueued := w.preQueued || !w.loopGone), EnterRun))
    case EnterRun => Some((w, if w.loopGone || w.loop == Running then Check else SetRunning))
    case SetRunning => Some((w.(loop := Running), InLoop))
    case InLoop => if w.stopAsked then Some((w, LoopReturned)) else None
    case LoopReturned => Some((w.(loop := Stopped), Check))
    case Check => Some((w.(checkFailed := w.checkFailed || w.loop != Stopped), RunPost))
    case RunPost =>
      Some((w.(postRuns := w.postRuns + 1, postEarly := w.postEarly || w.loop != Stopped), SetStopped))
    case SetStopped => Some((w.(thread := Stopped), Done))
    case Done => None
  }

  function StopperNext(w: World): Option<World> {
    match w.stopper
    case Before =>
      if w.starter != Back then None
      else Some(w.(stopper := if NothingToStop(w.thread, w.thread) then After else SetStopping))
    case SetStopping => Some(w.(thread := Stopping, stopper := LoopStop))
    case LoopStop =>
      if w.loopGone then Some(w.(stopper := Join))
      else if Rank(w.loop) < Rank(Running) then
        Some(w.(loopGone := true, freed := true, freedEarly := BeforeQueue(w.worker), stopper := Join))
      else Some(w.(loop := Stopping, stopper := AskStop))
    case AskStop => Some(w.(stopAsked := true, stopper := DropLoop))
    case DropLoop => Some(w.(loopGone := true, stopper := Join))
    case Join => if w.worker == Done then Some(w.(joinable := false, stopper := After)) else None
    case After => None
  }

  function AgainNext(w: World, id: nat): Option<World> {
    if id !in w.again then None
    else
      match w.again[id]
      case ReadOnce(first) =>
        var readsTwice := Rank(first) >= Rank(Starting);
        var v := w.(lateReads := if readsTwice && w.thread == Stopped then w.lateReads + 1 else w.lateReads);
        if AlreadyStarted(first, w.thread) then Some(v.(again := w.again - {id}))
        else Some(v.(again := w.again[id := Decided]))
      case Decided => Some(w.(thread := Starting, restarts := w.restarts + 1, again := w.again[id := ToCreate]))
      case ToCreate => Some(Create(w).(again := w.again - {id}))
  }

  /** The steps of runs in which no start reads the status before the first one has set it. */
  function Next(w: World, a: Action): Option<World> {
    if a.AgainRead? && Rank(w.thread) < Rank(Starting) then None else AnyNext(w, a)
  }

  /** The steps of all runs. */
  function AnyNext(w: World, a: Action): Option<World> {
    if w.crashed then None
    else
      match a
      case StarterStep => StarterNext(w)
      case WorkerStep =>
        (match ThreadNext(w, w.worker)
         case Some((v, p)) => Some(v.(worker := p))
         case None => None)
      case SecondStep =>
        (match ThreadNext(w, w.second)
         case Some((v, p)) => Some(v.(second := p))
         case None => None)
      case RunPre =>
        if (w.worker == InLoop || w.second == InLoop) && !w.freed && w.preQueued then
          Some(w.(preQueued := false, preRuns := w.preRuns + 1))
        else None
      case StopperStep => StopperNext(w)
      case AgainRead(id) =>
        if id in w.again then None else Some(w.(again := w.again[id := ReadOnce(w.thread)]))
      case AgainStep(id) => AgainNext(w, id)
  }

  predicate BeforeQueue(p: Worker) {
    p.Absent? || p.Begin? || p.QueuePre?
  }

  predicate BeforeLoop(p: Worker) {
    BeforeQueue(p) || p.EnterRun? || p.SetRunning?
  }

  predicate AfterLoop(p: Worker) {
    p.Check? || PastCheck(p)
  }

  predicate PastCheck(p: Worker) {
    p.RunPost? || PastPost(p)
  }

  predicate PastPost(p: Worker) {
    p.SetStopped? || p.Done?
  }

  predicate StopUnderWay(p: Stopper) {
    p.DropLoop? || p.Join? || p.After?
  }

  // The invariant has four parts: where the threads are, the status of the loop, the status of
  // the thread, and the repeated calls of start. Some proofs below go case by case over the
  // positions of a thread; the cases are empty, but one at a time they are much cheaper.

  ghost predicate Places(w: World) {
    && (w.worker.Absent? <==> w.starter.Outside? || w.starter.Spawn?)
    && (!w.stopper.Before? ==> w.starter.Back?)
    && (w.waits ==> !w.freed && (w.starter.Back? ==> !BeforeLoop(w.worker)))
    && w.stopAsked == (StopUnderWay(w.stopper) && !w.freed)
    && w.loopGone == (w.stopper.Join? || w.stopper.After?)
    && (w.freed ==> w.loopGone && !w.worker.LoopReturned?)
    && (!w.freed && (w.worker.LoopReturned? || AfterLoop(w.worker)) ==> w.stopAsked)
    && (!w.freed && BeforeLoop(w.worker) ==> w.stopper.Before? || w.stopper.SetStopping? || w.stopper.LoopStop?)
    && (w.stopper.After? ==> w.worker.Done?)
    && (!w.second.Absent? ==> w.stopper.After? && !w.second.SetRunning? && !w.second.InLoop? && !w.second.LoopReturned?)
  }

  predicate LoopFits(w: World) {
    && w.loop == (if BeforeLoop(w.worker) then Initialized
                  else if AfterLoop(w.worker) then (if w.freed then Initialized else Stopped)
                  else if w.freed || w.stopper.Before? || w.stopper.SetStopping? || w.stopper.LoopStop? then Running
                  else Stopping)
    && w.checkFailed == (w.freed && PastCheck(w.worker))
    && w.postEarly == (w.freed && PastPost(w.worker))
    && w.postRuns == (if PastPost(w.worker) then 1 else 0) + (if PastPost(w.second) then 1 else 0)
    && w.preRuns + (if w.preQueued then 1 else 0) == (if BeforeQueue(w.worker) || w.freedEarly then 0 else 1)
    && (BeforeQueue(w.worker) ==> w.freedEarly == w.freed)
    && (w.freedEarly ==> w.freed)
  }

  predicate StatusFits(w: World) {
    && (w.stopper.Before? || w.stopper.SetStopping? ==>
          w.thread == (if w.starter.Outside? then Initialized
                       else if w.worker.Absent? || w.worker.Begin? then Starting
                       else Started))
    && (w.restarts == 0 && w.waits && !w.stopper.Before? && !w.stopper.SetStopping? ==>
          w.thread == (if w.worker.Done? then Stopped else Stopping))
    && (!w.worker.Done? ==> w.thread != Stopped && w.lateReads == 0)
    && (w.starter.Outside? ==> w.again == map[])
    && (!w.starter.Outside? ==> Rank(w.thread) >= Rank(Starting))
    && Rank(w.thread) <= Rank(Stopped)
  }

  /** A repeated start that will create a thread. */
  predicate Creating(w: World, id: nat) {
    id in w.again && !w.again[id].ReadOnce?
  }

  ghost predicate RepeatsFit(w: World) {
    && w.joinable == (!w.worker.Absent? && (!w.stopper.After? || !w.second.Absent?))
    && w.created == (if w.worker.Absent? then 0 else 1) + (if w.second.Absent? then 0 else 1) + (if w.crashed then 1 else 0)
    && (forall id :: id in w.again && w.again[id].ReadOnce? ==> Rank(w.again[id].first) >= Rank(Starting))
    && (forall id :: id in w.again && w.again[id].ToCreate? ==> w.restarts > 0)
    && (w.lateReads > 0 <==> w.created >= 2 || exists id :: Creating(w, id))
    && (w.created >= 2 ==> w.restarts > 0)
    && (w.restarts > 0 ==> w.lateReads > 0)
  }

  ghost predicate Inv(w: World) { Places(w) && LoopFits(w) && StatusFits(w) && RepeatsFit(w) }

  lemma StarterKeepsPlaces(w: World)
    requires Inv(w) && Next(w, StarterStep).Some?
    ensures Places(Next(w, StarterStep).value) && Next(w, StarterStep).value.waits == w.waits
  {
  }

  lemma StarterKeepsLoop(w: World)
    requires Inv(w) && Next(w, StarterStep).Some?
    ensures LoopFits(Next(w, StarterStep).value)
  {
  }

  lemma StarterKeepsStatus(w: World)
    requires Inv(w) && Next(w, StarterStep).Some?
    ensures StatusFits(Next(w, StarterStep).value)
  {
  }

  lemma StarterKeepsRepeats(w: World)
    requires Inv(w) && Next(w, StarterStep).Some?
    ensures RepeatsFit(Next(w, StarterStep).value)
  {
    SameCreating(w, Next(w, StarterStep).value);
  }

  lemma WorkerKeepsPlaces(w: World)
    requires Inv(w) && Next(w, WorkerStep).Some?
    ensures Places(Next(w, WorkerStep).value) && Next(w, WorkerStep).value.waits == w.waits
  {
    match w.worker
    case Begin =>
    case QueuePre =>
    case EnterRun =>
    case SetRunning =>
    case InLoop =>
    case LoopReturned =>
    case Check =>
    case RunPost =>
    case SetStopped =>
  }

  lemma WorkerKeepsLoop(w: World)
    requires Inv(w) && Next(w, WorkerStep).Some?
    ensures LoopFits(Next(w, WorkerStep).value)
  {
    if BeforeLoop(w.worker) {
      WorkerKeepsLoopBefore(w);
    } else {
      WorkerKeepsLoopAfter(w);
    }
  }

  lemma WorkerKeepsLoopBefore(w: World)
    requires Inv(w) && Next(w, WorkerStep).Some? && BeforeLoop(w.worker)
    ensures LoopFits(Next(w, WorkerStep).value)
  {
  }

  lemma WorkerKeepsLoopAfter(w: World)
    requires Inv(w) && Next(w, WorkerStep).Some? && !BeforeLoop(w.worker)
    ensures LoopFits(Next(w, WorkerStep).value)
  {
    match w.worker
    case InLoop =>
    case LoopReturned =>
    case Check =>
    case RunPost =>
    case SetStopped =>
  }

  lemma WorkerKeepsStatus(w: World)
    requires Inv(w) && Next(w, WorkerStep).Some?
    ensures StatusFits(Next(w, WorkerStep).value)
  {
    match w.worker
    case Begin =>
    case QueuePre =>
    case EnterRun =>
    case SetRunning =>
    case InLoop =>
    case LoopReturned =>
    case Check =>
    case RunPost =>
    case SetStopped =>
  }

  lemma WorkerKeepsRepeats(w: World)
    requires Inv(w) && Next(w, WorkerStep).Some?
    ensures RepeatsFit(Next(w, WorkerStep).value)
  {
    WorkerSameRepeats(w);
    RepeatsSame(w, Next(w, WorkerStep).value);
  }

  lemma WorkerSameRepeats(w: World)
    requires Inv(w) && Next(w, WorkerStep).Some?
    ensures SameRepeats(w, Next(w, WorkerStep).value)
  {
    match w.worker
    case Begin =>
    case QueuePre =>
    case EnterRun =>
    case SetRunning =>
    case InLoop =>
    case LoopReturned =>
    case Check =>
    case RunPost =>
    case SetStopped =>
  }

  lemma SecondKeepsPlaces(w: World)
    requires Inv(w) && Next(w, SecondStep).Some?
    ensures Places(Next(w, SecondStep).value) && Next(w, SecondStep).value.waits == w.waits
  {
    match w.second
    case Begin =>
    case QueuePre =>
    case EnterRun =>
    case SetRunning =>
    case InLoop =>
    case LoopReturned =>
    case Check =>
    case RunPost =>
    case SetStopped =>
  }

  lemma SecondKeepsLoop(w: World)
    requires Inv(w) && Next(w, SecondStep).Some?
    ensures LoopFits(Next(w, SecondStep).value)
  {
    match w.second
    case Begin =>
    case QueuePre =>
    case EnterRun =>
    case SetRunning =>
    case InLoop =>
    case LoopReturned =>
    case Check =>
    case RunPost =>
    case SetStopped =>
  }

  lemma SecondKeepsStatus(w: World)
    requires Inv(w) && Next(w, SecondStep).Some?
    ensures StatusFits(Next(w, SecondStep).value)
  {
    match w.second
    case Begin =>
    case QueuePre =>
    case EnterRun =>
    case SetRunning =>
    case InLoop =>
    case LoopReturned =>
    case Check =>
    case RunPost =>
    case SetStopped =>
  }

  lemma SecondKeepsRepeats(w: World)
    requires Inv(w) && Next(w, SecondStep).Some?
    ensures RepeatsFit(Next(w, SecondStep).value)
  {
    SecondSameRepeats(w);
    RepeatsSame(w, Next(w, SecondStep).value);
  }

  lemma SecondSameRepeats(w: World)
    requires Inv(w) && Next(w, SecondStep).Some?
    ensures SameRepeats(w, Next(w, SecondStep).value)
  {
  }

  lemma StopperKeepsPlaces(w: World)
    requires Inv(w) && Next(w, StopperStep).Some?
    ensures Places(Next(w, StopperStep).value) && Next(w, StopperStep).value.waits == w.waits
  {
  }

  lemma StopperKeepsLoop(w: World)
    requires Inv(w) && Next(w, StopperStep).Some?
    ensures LoopFits(Next(w, StopperStep).value)
  {
  }

  lemma StopperKeepsStatus(w: World)
    requires Inv(w) && Next(w, StopperStep).Some?
    ensures StatusFits(Next(w, StopperStep).value)
  {
  }

  lemma StopperKeepsRepeats(w: World)
    requires Inv(w) && Next(w, StopperStep).Some?
    ensures RepeatsFit(Next(w, StopperStep).value)
  {
    SameCreating(w, Next(w, StopperStep).value);
    match w.stopper
    case Before =>
    case SetStopping =>
    case LoopStop =>
    case AskStop =>
    case DropLoop =>
    case Join =>
  }

  /** As far as the repeated calls are concerned nothing has happened. */
  ghost predicate SameRepeats(w: World, n: World) {
    && n.again == w.again && n.joinable == w.joinable && n.created == w.created && n.crashed == w.crashed
    && n.lateReads == w.lateReads && n.restarts == w.restarts && n.stopper == w.stopper
    && n.worker.Absent? == w.worker.Absent? && n.second.Absent? == w.second.Absent?
  }

  lemma RepeatsSame(w: World, n: World)
    requires RepeatsFit(w) && SameRepeats(w, n)
    ensures RepeatsFit(n)
  {
    SameCreating(w, n);
  }

  lemma SameCreating(w: World, n: World)
    requires n.again == w.again
    ensures (exists id :: Creating(w, id)) <==> exists id :: Creating(n, id)
  {
    assert forall id :: Creating(n, id) <==> Creating(w, id);
  }

  /** A repeated start leaves the loop and the other threads alone, but may create the second. */
  ghost predicate RepeatMove(w: World, n: World) {
    && n.waits == w.waits && n.worker == w.worker && n.starter == w.starter && n.stopper == w.stopper
    && n.loop == w.loop && n.loopGone == w.loopGone && n.stopAsked == w.stopAsked
    && n.freed == w.freed && n.freedEarly == w.freedEarly
    && n.preQueued == w.preQueued && n.preRuns == w.preRuns && n.postRuns == w.postRuns
    && n.checkFailed == w.checkFailed && n.postEarly == w.postEarly
    && n.restarts >= w.restarts
    && (n.second != w.second ==> n.second == Begin && w.second == Absent && w.stopper == After && w.restarts > 0)
  }

  lemma RepeatMoves(w: World, id: nat)
    requires Inv(w) && Next(w, AgainStep(id)).Some?
    ensures RepeatMove(w, Next(w, AgainStep(id)).value)
  {
    match w.again[id]
    case ReadOnce(_) => ReadMoves(w, id);
    case Decided => SettingMoves(w, id);
    case ToCreate => CreationMoves(w, id);
  }

  lemma ReadMoves(w: World, id: nat)
    requires Inv(w) && Next(w, AgainStep(id)).Some? && w.again[id].ReadOnce?
    ensures RepeatMove(w, Next(w, AgainStep(id)).value)
  {
    if AlreadyStarted(w.again[id].first, w.thread) {}
  }

  lemma SettingMoves(w: World, id: nat)
    requires Inv(w) && Next(w, AgainStep(id)).Some? && w.again[id].Decided?
    ensures RepeatMove(w, Next(w, AgainStep(id)).value)
  {
  }

  lemma CreationMoves(w: World, id: nat)
    requires Inv(w) && Next(w, AgainStep(id)).Some? && w.again[id].ToCreate?
    ensures RepeatMove(w, Next(w, AgainStep(id)).value)
  {
    assert Creating(w, id);
    assert !w.worker.Absent?;
  }

  lemma RepeatKeepsPlaces(w: World, n: World)
    requires Places(w) && RepeatMove(w, n)
    ensures Places(n)
  {
  }

  lemma RepeatKeepsLoop(w: World, n: World)
    requires LoopFits(w) && RepeatMove(w, n)
    ensures LoopFits(n)
  {
  }

  lemma RepeatKeepsStatus(w: World, id: nat)
    requires Inv(w) && Next(w, AgainStep(id)).Some?
    ensures var n := Next(w, AgainStep(id)).value;
            StatusFits(n)
  {
    match w.again[id]
    case ReadOnce(_) =>
    case Decided => assert Creating(w, id);
    case ToCreate =>
  }

  lemma RepeatKeepsRepeats(w: World, id: nat)
    requires Inv(w) && Next(w, AgainStep(id)).Some?
    ensures RepeatsFit(Next(w, AgainStep(id)).value)
  {
    match w.again[id]
    case ReadOnce(_) => SecondRead(w, id);
    case Decided => StatusSetAgain(w, id);
    case ToCreate => CreatedAgain(w, id);
  }

  lemma SecondRead(w: World, id: nat)
    requires Inv(w) && Next(w, AgainStep(id)).Some? && w.again[id].ReadOnce?
    ensures RepeatsFit(Next(w, AgainStep(id)).value)
  {
    var n := Next(w, AgainStep(id)).value;
    if w.thread == Stopped {
      assert Creating(n, id);
    } else {
      assert forall k :: Creating(n, k) <==> Creating(w, k);
    }
  }

  lemma StatusSetAgain(w: World, id: nat)
    requires Inv(w) && Next(w, AgainStep(id)).Some? && w.again[id].Decided?
    ensures RepeatsFit(Next(w, AgainStep(id)).value)
  {
    assert Creating(Next(w, AgainStep(id)).value, id) && Creating(w, id);
  }

  lemma CreatedAgain(w: World, id: nat)
    requires Inv(w) && Next(w, AgainStep(id)).Some? && w.again[id].ToCreate?
    ensures RepeatsFit(Next(w, AgainStep(id)).value)
  {
    assert Creating(w, id);
  }

  lemma OtherKeeps(w: World, a: Action)
    requires Inv(w) && (a.RunPre? || a.AgainRead?) && Next(w, a).Some?
    ensures Inv(Next(w, a).value) && Next(w, a).value.waits == w.waits
  {
    assert forall k :: Creating(Next(w, a).value, k) <==> Creating(w, k);
  }

  lemma StepKeeps(w: World, a: Action)
    requires Inv(w) && Next(w, a).Some?
    ensures Inv(Next(w, a).value) && Next(w, a).value.waits == w.waits
  {
    match a
    case StarterStep =>
      StarterKeepsPlaces(w);
      StarterKeepsLoop(w);
      StarterKeepsStatus(w);
      StarterKeepsRepeats(w);
    case WorkerStep =>
      WorkerKeepsPlaces(w);
      WorkerKeepsLoop(w);
      WorkerKeepsStatus(w);
      WorkerKeepsRepeats(w);
    case SecondStep =>
      SecondKeepsPlaces(w);
      SecondKeepsLoop(w);
      SecondKeepsStatus(w);
      SecondKeepsRepeats(w);
    case StopperStep =>
      StopperKeepsPlaces(w);
      StopperKeepsLoop(w);
      StopperKeepsStatus(w);
      StopperKeepsRepeats(w);
    case AgainStep(id) =>
      RepeatMoves(w, id);
      RepeatKeepsPlaces(w, Next(w, a).value);
      RepeatKeepsLoop(w, Next(w, a).value);
      RepeatKeepsStatus(w, id);
      RepeatKeepsRepeats(w, id);
    case RunPre => OtherKeeps(w, a);
    case AgainRead(id) => OtherKeeps(w, a);
  }

  lemma InitInv(waits: bool)
    ensures Inv(Init(waits))
  {
  }

  lemma AllReachable(waits: bool, acts: seq<Action>)
    requires Exec(Next, Init(waits), acts).Some?
    ensures Inv(Exec(Next, Init(waits), acts).value) && Exec(Next, Init(waits), acts).value.waits == waits
  {
    InitInv(waits);
    var inv := (w: World) => Inv(w) && w.waits == waits;
    forall w, a | inv(w) && Next(w, a).Some? ensures inv(Next(w, a).value) { StepKeeps(w, a); }
    RunKeeps(Next, inv, Init(waits), acts);
  }

  // ---------------------------------------------------------------------------
  // Results
  // ---------------------------------------------------------------------------

  /** In every run in which one stop follows a returned start that waited: the loop has stopped
      whenever a loop thread asserts so, and post runs only then; pre is queued once, by the thread
      on its way to the loop, and is waiting there or has run since. However
      start is called again once the first call has set the status, another thread is created, or about to be, exactly when
      the second status read of such a call came after the thread's end; unless stop's join has
      returned by then, that ends the program. */
  lemma EveryRun(acts: seq<Action>)
    requires Exec(Next, Init(true), acts).Some?
    ensures var w := Exec(Next, Init(true), acts).value;
            && !w.checkFailed && !w.postEarly
            && (w.postRuns > 0 ==> w.loop == Stopped && w.stopAsked)
            && w.preRuns + (if w.preQueued then 1 else 0) == (if BeforeQueue(w.worker) then 0 else 1)
            && w.postRuns <= w.created
            && (w.created >= 2 || (exists id :: Creating(w, id)) <==> w.lateReads > 0)
            && (w.created >= 2 ==> w.crashed || w.stopper.After?)
            && (w.stopper.After? ==> w.loop == Stopped && w.postRuns > 0 && (w.restarts == 0 ==> w.thread == Stopped))
  {
    AllReachable(true, acts);
  }

  /** With waiting or without: once the loop thread has come past the queueing of pre, the functor
      is queued or has run, once, unless stop had freed the loop before. */
  lemma PreIsQueued(waits: bool, acts: seq<Action>)
    requires Exec(Next, Init(waits), acts).Some?
    ensures var w := Exec(Next, Init(waits), acts).value;
            && w.preRuns + (if w.preQueued then 1 else 0) == (if BeforeQueue(w.worker) || w.freedEarly then 0 else 1)
            && (w.freedEarly ==> w.freed && !waits)
            && (Next(w, RunPre).Some? ==> w.worker.InLoop?)
  {
    AllReachable(waits, acts);
  }

  /** And while the loop is being run, the C loop can deliver it, and then it has run. */
  lemma PreCanRun(waits: bool, acts: seq<Action>)
    requires Exec(Next, Init(waits), acts).Some?
    requires var w := Exec(Next, Init(waits), acts).value; w.worker.InLoop? && !w.freed && !w.crashed && w.preRuns == 0
    ensures Exec(Next, Init(waits), acts + [RunPre]).Some?
    ensures Exec(Next, Init(waits), acts + [RunPre]).value.preRuns == 1
  {
    AllReachable(waits, acts);
    RunThenStep(Next, Init(waits), acts, RunPre);
  }

  /** A repeated start can come at any time once the status is set. If its second read finds the
      thread not yet at its end, the call returns and has changed nothing. */
  lemma RepeatedStart(waits: bool, acts: seq<Action>, id: nat)
    requires Exec(Next, Init(waits), acts).Some? && !Exec(Next, Init(waits), acts).value.crashed
    ensures var w := Exec(Next, Init(waits), acts).value;
            && (Rank(w.thread) >= Rank(Starting) && id !in w.again ==>
                  Next(w, AgainRead(id)) == Some(w.(again := w.again[id := ReadOnce(w.thread)])))
            && (id in w.again && w.again[id].ReadOnce? && w.thread != Stopped ==>
                  Next(w, AgainStep(id)) == Some(w.(again := w.again - {id})))
  {
    AllReachable(waits, acts);
  }

  /** The two statuses at every moment of a run that waited, until a repeated start sets one. */
  lemma StatusesAt(acts: seq<Action>)
    requires Exec(Next, Init(true), acts).Some?
    ensures var w := Exec(Next, Init(true), acts).value;
            var stopping := !w.stopper.Before? && !w.stopper.SetStopping?;
            && w.loop == (if BeforeLoop(w.worker) then Initialized
                          else if AfterLoop(w.worker) then Stopped
                          else if stopping && !w.stopper.LoopStop? then Stopping
                          else Running)
            && (w.restarts == 0 ==>
                  w.thread == (if w.starter.Outside? then Initialized
                               else if w.worker.Absent? || w.worker.Begin? then Starting
                               else if w.worker.Done? then Stopped
                               else if stopping then Stopping
                               else Started))
  {
    AllReachable(true, acts);
  }

  /** With waiting or without: the assertion that the loop has stopped fails exactly when stop
      found the loop not yet running and freed it, and so does post run early. */
  lemma CheckFailsIffFreed(waits: bool, acts: seq<Action>)
    requires Exec(Next, Init(waits), acts).Some?
    ensures var w := Exec(Next, Init(waits), acts).value;
            && (PastCheck(w.worker) ==> (w.checkFailed <==> w.freed))
            && (PastPost(w.worker) ==> (w.postEarly <==> w.freed))
            && (w.freed ==> !waits)
  {
    AllReachable(waits, acts);
  }

  /** The rank of the thread's status, until a repeated start sets it anew. */
  function RankUntilRestart(w: World): int { if w.restarts > 0 then 100 else Rank(w.thread) }

  lemma StarterGrows(w: World)
    requires Inv(w) && w.waits && Next(w, StarterStep).Some?
    ensures Grows(w, Next(w, StarterStep).value) && Next(w, StarterStep).value.restarts == w.restarts
  {
  }

  lemma WorkerGrows(w: World)
    requires Inv(w) && w.waits && Next(w, WorkerStep).Some?
    ensures Grows(w, Next(w, WorkerStep).value) && Next(w, WorkerStep).value.restarts == w.restarts
  {
  }

  lemma SecondGrows(w: World)
    requires Inv(w) && w.waits && Next(w, SecondStep).Some?
    ensures Grows(w, Next(w, SecondStep).value) && Next(w, SecondStep).value.restarts == w.restarts
  {
  }

  lemma StopperGrows(w: World)
    requires Inv(w) && w.waits && Next(w, StopperStep).Some?
    ensures Grows(w, Next(w, StopperStep).value) && Next(w, StopperStep).value.restarts == w.restarts
  {
  }

  ghost predicate Grows(w: World, n: World) {
    RankUntilRestart(w) <= RankUntilRestart(n) && Rank(w.loop) <= Rank(n.loop) && w.restarts <= n.restarts
  }

  lemma RepeatGrows(w: World, id: nat)
    requires Inv(w) && Next(w, AgainStep(id)).Some?
    ensures Grows(w, Next(w, AgainStep(id)).value)
    ensures Next(w, AgainStep(id)).value.restarts != w.restarts ==> w.again[id].Decided?
  {
  }

  lemma StepGrows(w: World, a: Action)
    requires Inv(w) && w.waits && Next(w, a).Some?
    ensures Grows(w, Next(w, a).value)
    ensures Next(w, a).value.restarts != w.restarts ==> a.AgainStep? && a.id in w.again && w.again[a.id].Decided?
  {
    match a
    case StarterStep => StarterGrows(w);
    case WorkerStep => WorkerGrows(w);
    case SecondStep => SecondGrows(w);
    case StopperStep => StopperGrows(w);
    case AgainStep(id) => RepeatGrows(w, id);
    case RunPre =>
    case AgainRead(_) =>
  }

  /** Between any two points of a run that waited, the status of the loop never goes backwards,
      and that of the thread does not unless a repeated start has set it. */
  lemma StatusesOnlyGrow(before: seq<Action>, after: seq<Action>)
    requires Exec(Next, Init(true), before + after).Some?
    ensures Exec(Next, Init(true), before).Some?
    ensures var w := Exec(Next, Init(true), before).value;
            var n := Exec(Next, Init(true), before + after).value;
            Rank(w.loop) <= Rank(n.loop) && (n.restarts == 0 ==> Rank(w.thread) <= Rank(n.thread))
  {
    var inv := (w: World) => Inv(w) && w.waits;
    forall w, a | inv(w) && Next(w, a).Some? ensures inv(Next(w, a).value) && Grows(w, Next(w, a).value) {
      StepKeeps(w, a);
      StepGrows(w, a);
    }
    RunThenRun(Next, Init(true), before, after);
    AllReachable(true, before);
    var w := Exec(Next, Init(true), before).value;
    RunNeverLowers(Next, inv, (x: World) => Rank(x.loop), w, after);
    RunNeverLowers(Next, inv, RankUntilRestart, w, after);
    RunNeverLowers(Next, inv, (x: World) => x.restarts, w, after);
  }

  /** The p-th step of the run lowers the status of the thread. */
  ghost predicate FallsAt(acts: seq<Action>, p: nat) {
    && p < |acts|
    && Exec(Next, Init(true), acts[..p]).Some? && Exec(Next, Init(true), acts[..p + 1]).Some?
    && Rank(Exec(Next, Init(true), acts[..p + 1]).value.thread) < Rank(Exec(Next, Init(true), acts[..p]).value.thread)
  }

  /** The status of the thread goes backwards in a run that waited exactly when a repeated start
      has set it. */
  lemma {:induction false} FallsIffRestarted(acts: seq<Action>)
    requires Exec(Next, Init(true), acts).Some?
    ensures Exec(Next, Init(true), acts).value.restarts > 0 <==> exists p :: FallsAt(acts, p)
    decreases |acts|
  {
    if acts == [] {
      return;
    }
    var m := |acts| - 1;
    var front, a := acts[..m], acts[m];
    assert acts == front + [a] && acts[..m + 1] == acts;
    RunThenRun(Next, Init(true), front, [a]);
    RunThenStep(Next, Init(true), front, a);
    FallsIffRestarted(front);
    forall p: nat | p < m ensures FallsAt(acts, p) <==> FallsAt(front, p) { SameFall(acts, m, p); }
    LastStep(front, a);
    var w, n := Exec(Next, Init(true), front).value, Exec(Next, Init(true), acts).value;
    assert FallsAt(acts, m) <==> Rank(n.thread) < Rank(w.thread);
    if w.restarts > 0 {
      var p :| FallsAt(front, p);
      assert FallsAt(acts, p);
    }
  }

  lemma SameFall(acts: seq<Action>, m: nat, p: nat)
    requires p < m <= |acts|
    ensures FallsAt(acts[..m], p) <==> FallsAt(acts, p)
  {
    assert acts[..m][..p] == acts[..p] && acts[..m][..p + 1] == acts[..p + 1];
  }

  /** The first restart finds the thread stopped, and without one the status does not fall. */
  lemma LastStep(front: seq<Action>, a: Action)
    requires Exec(Next, Init(true), front).Some? && Next(Exec(Next, Init(true), front).value, a).Some?
    ensures var w, n := Exec(Next, Init(true), front).value, Next(Exec(Next, Init(true), front).value, a).value;
            && n.restarts >= w.restarts
            && (w.restarts == 0 && n.restarts > 0 ==> Rank(n.thread) < Rank(w.thread))
            && (n.restarts == 0 ==> Rank(n.thread) >= Rank(w.thread))
  {
    AllReachable(true, front);
    var w := Exec(Next, Init(true), front).value;
    StepGrows(w, a);
    LastStepFalls(w, a);
  }

  lemma LastStepFalls(w: World, a: Action)
    requires Inv(w) && w.waits && Next(w, a).Some?
    ensures Next(w, a).value.restarts >= w.restarts
    ensures w.restarts == 0 && Next(w, a).value.restarts > 0 ==> Rank(Next(w, a).value.thread) < Rank(w.thread)
  {
    StepGrows(w, a);
    if w.restarts == 0 && Next(w, a).value.restarts > 0 {
      assert Creating(w, a.id);
    }
  }

  // ---------------------------------------------------------------------------
  // Progress
  // ---------------------------------------------------------------------------

  predicate BothReturned(w: World) { w.starter.Back? && w.stopper.After? }

  /** The loop thread was about to run the loop when stop freed it: nothing will end its run. */
  predicate Stuck(w: World) { w.freed && (w.worker.SetRunning? || w.worker.InLoop?) }

  function WorkerLeft(p: Worker): nat {
    match p
    case Absent => 10
    case Begin => 9
    case QueuePre => 8
    case EnterRun => 7
    case SetRunning => 6
    case InLoop => 5
    case LoopReturned => 4
    case Check => 3
    case RunPost => 2
    case SetStopped => 1
    case Done => 0
  }

  function StarterLeft(p: Starter): nat {
    match p case Outside => 3 case Spawn => 2 case Waiting => 1 case Back => 0
  }

  function StopperLeft(p: Stopper): nat {
    match p
    case Before => 6
    case SetStopping => 5
    case LoopStop => 4
    case AskStop => 3
    case DropLoop => 2
    case Join => 1
    case After => 0
  }

  /** How many steps of the three threads are left, at most. */
  function Distance(w: World): nat { WorkerLeft(w.worker) + StarterLeft(w.starter) + StopperLeft(w.stopper) }

  ghost predicate CanGoOn(w: World) { Inv(w) && !w.crashed && !Stuck(w) }

  lemma StarterGoesOn(w: World)
    requires CanGoOn(w) && !w.starter.Back? && (w.starter.Waiting? ==> Rank(w.loop) >= Rank(Running))
    ensures Next(w, StarterStep).Some?
    ensures var n := Next(w, StarterStep).value; !n.crashed && !Stuck(n) && Distance(n) < Distance(w)
  {
  }

  lemma WorkerGoesOn(w: World)
    requires CanGoOn(w) && !w.worker.Absent? && !w.worker.Done? && (w.worker.InLoop? ==> w.stopAsked)
    ensures Next(w, WorkerStep).Some?
    ensures var n := Next(w, WorkerStep).value; !n.crashed && !Stuck(n) && Distance(n) < Distance(w)
  {
  }

  lemma StopperGoesOn(w: World)
    requires CanGoOn(w) && w.starter.Back? && !w.stopper.After? && (w.stopper.Join? ==> w.worker.Done?)
    requires BeforeLoop(w.worker) ==> w.freed
    ensures Next(w, StopperStep).Some?
    ensures var n := Next(w, StopperStep).value; !n.crashed && !Stuck(n) && Distance(n) < Distance(w)
  {
  }

  /** Let the loop thread get into the loop first, then stop it. */
  lemma NextStep(w: World) returns (a: Action)
    requires CanGoOn(w) && !BothReturned(w)
    ensures Next(w, a).Some? && CanGoOn(Next(w, a).value) && Distance(Next(w, a).value) < Distance(w)
    ensures Next(w, a).value.waits == w.waits
  {
    if !w.starter.Back? && !(w.starter.Waiting? && Rank(w.loop) < Rank(Running)) {
      StarterGoesOn(w);
      a := StarterStep;
    } else if (BeforeLoop(w.worker) || w.stopper.Join?) && !w.worker.Done? {
      WorkerGoesOn(w);
      a := WorkerStep;
    } else {
      StopperGoesOn(w);
      a := StopperStep;
    }
    StepKeeps(w, a);
  }

  lemma StuckForEver(w: World, a: Action)
    requires Inv(w) && Stuck(w) && Next(w, a).Some?
    ensures Stuck(Next(w, a).value)
  {
    match a
    case WorkerStep =>
    case StarterStep =>
    case StopperStep =>
    case SecondStep =>
    case RunPre =>
    case AgainRead(_) =>
    case AgainStep(id) => RepeatMoves(w, id);
  }

  /** From any point of any run, with waiting or without, the calls of start and stop can both
      still return, unless the program has ended or stop has freed the loop while the loop thread
      was about to run it; then stop's join never returns. */
  lemma CanReturnUnlessStuck(waits: bool, acts: seq<Action>)
    requires Exec(Next, Init(waits), acts).Some?
    ensures var w := Exec(Next, Init(waits), acts).value;
            (exists more :: Exec(Next, w, more).Some? && BothReturned(Exec(Next, w, more).value)) <==>
            BothReturned(w) || (!w.crashed && !Stuck(w))
    ensures waits ==> !Stuck(Exec(Next, Init(waits), acts).value)
  {
    AllReachable(waits, acts);
    var w := Exec(Next, Init(waits), acts).value;
    if BothReturned(w) {
      assert Exec(Next, w, []) == Some(w);
    } else if !w.crashed && !Stuck(w) {
      var more := ReachReturn(w);
    } else {
      forall more | Exec(Next, w, more).Some? ensures !BothReturned(Exec(Next, w, more).value) {
        NeverReturns(w, more);
      }
    }
  }

  lemma ReachReturn(w: World) returns (more: seq<Action>)
    requires CanGoOn(w)
    ensures Exec(Next, w, more).Some? && BothReturned(Exec(Next, w, more).value)
  {
    forall x | CanGoOn(x) && !BothReturned(x)
      ensures exists a :: Next(x, a).Some? && CanGoOn(Next(x, a).value) && Distance(Next(x, a).value) < Distance(x)
    {
      var a := NextStep(x);
    }
    more := CanReach(Next, CanGoOn, BothReturned, Distance, w);
  }

  lemma NeverReturns(w: World, more: seq<Action>)
    requires Inv(w) && !BothReturned(w) && (w.crashed || Stuck(w)) && Exec(Next, w, more).Some?
    ensures !BothReturned(Exec(Next, w, more).value)
  {
    if !w.crashed {
      var inv := (x: World) => Inv(x) && Stuck(x);
      forall x, a | inv(x) && Next(x, a).Some? ensures inv(Next(x, a).value) {
        StepKeeps(x, a);
        StuckForEver(x, a);
      }
      RunKeeps(Next, inv, w, more);
    }
  }

  // ---------------------------------------------------------------------------
  // Runs that show what can go wrong
  // ---------------------------------------------------------------------------

  lemma Go(start: World, acts: seq<Action>, w: World, a: Action, n: World) returns (more: seq<Action>, m: World)
    requires Exec(Next, start, acts) == Some(w) && Next(w, a) == Some(n)
    ensures more == acts + [a] && Exec(Next, start, more) == Some(n) && m == n
  {
    RunThenStep(Next, start, acts, a);
    more, m := acts + [a], n;
  }

  /** Start without waiting, then stop up to its join, before the loop thread begins. */
  lemma StopBeforeBegin() returns (acts: seq<Action>, w: World)
    ensures Exec(Next, Init(false), acts) == Some(w)
    ensures w == Init(false).(thread := Stopping, starter := Back, created := 1, joinable := true, worker := Begin,
                              stopper := Join, loopGone := true, freed := true, freedEarly := true)
  {
    var s := Init(false);
    acts, w := Go(s, [], s, StarterStep, s.(thread := Starting, starter := Spawn));
    acts, w := Go(s, acts, w, StarterStep, w.(created := 1, joinable := true, worker := Begin, starter := Back));
    acts, w := Go(s, acts, w, StopperStep, w.(stopper := SetStopping));
    acts, w := Go(s, acts, w, StopperStep, w.(thread := Stopping, stopper := LoopStop));
    acts, w := Go(s, acts, w, StopperStep, w.(loopGone := true, freed := true, freedEarly := true, stopper := Join));
  }

  /** Waiting is needed: when start does not wait, a stop may come before the loop thread has
      begun. It then frees the loop, the thread's status falls back from stopping to started,
      and the assertion that the loop has stopped fails. */
  lemma WithoutWaiting() returns (acts: seq<Action>, more: seq<Action>)
    ensures Exec(Next, Init(false), acts).Some? && Exec(Next, Init(false), acts).value.thread == Stopping
    ensures Exec(Next, Init(false), acts + [WorkerStep]).Some? &&
            Exec(Next, Init(false), acts + [WorkerStep]).value.thread == Started
    ensures Exec(Next, Init(false), acts + [WorkerStep] + more).Some? &&
            Exec(Next, Init(false), acts + [WorkerStep] + more).value.checkFailed
  {
    var w, run;
    acts, w := StopBeforeBegin();
    var s := Init(false);
    run, w := Go(s, acts, w, WorkerStep, w.(thread := Started, worker := QueuePre));
    run, w := Go(s, run, w, WorkerStep, w.(worker := EnterRun));
    run, w := Go(s, run, w, WorkerStep, w.(worker := Check));
    run, w := Go(s, run, w, WorkerStep, w.(checkFailed := true, worker := RunPost));
    more := [WorkerStep, WorkerStep, WorkerStep];
    assert run == acts + [WorkerStep] + more;
  }

  /** The loop is serving, and a repeated start has read the status once. */
  function Serving(): World {
    Init(true).(thread := Started, loop := Running, preQueued := true, joinable := true, worker := InLoop,
                starter := Back, again := map[0 := ReadOnce(Started)], created := 1)
  }

  /** The same, when stop is about to join and the thread has ended. */
  function Ended(): World {
    Serving().(thread := Stopped, loop := Stopped, worker := Done, stopper := Join, stopAsked := true,
               loopGone := true, postRuns := 1)
  }

  /** On the way there. */
  function Entering(): World {
    Init(true).(thread := Started, preQueued := true, joinable := true, worker := EnterRun, starter := Waiting, created := 1)
  }

  function Halted(): World {
    Serving().(thread := Stopping, loop := Stopping, stopper := Join, stopAsked := true, loopGone := true)
  }

  lemma RunToEntering() returns (acts: seq<Action>, w: World)
    ensures Exec(Next, Init(true), acts) == Some(w) && w == Entering()
  {
    var s := Init(true);
    acts, w := Go(s, [], s, StarterStep, s.(thread := Starting, starter := Spawn));
    acts, w := Go(s, acts, w, StarterStep, w.(starter := Waiting, created := 1, joinable := true, worker := Begin));
    acts, w := Go(s, acts, w, WorkerStep, w.(thread := Started, worker := QueuePre));
    acts, w := Go(s, acts, w, WorkerStep, w.(preQueued := true, worker := EnterRun));
  }

  lemma RunToServing() returns (acts: seq<Action>, w: World)
    ensures Exec(Next, Init(true), acts) == Some(w) && w == Serving()
  {
    var s := Init(true);
    acts, w := RunToEntering();
    acts, w := Go(s, acts, w, WorkerStep, w.(worker := SetRunning));
    acts, w := Go(s, acts, w, WorkerStep, w.(loop := Running, worker := InLoop));
    acts, w := Go(s, acts, w, StarterStep, w.(starter := Back));
    acts, w := Go(s, acts, w, AgainRead(0), w.(again := w.again[0 := ReadOnce(Started)]));
    assert w.again == map[0 := ReadOnce(Started)];
  }

  lemma RunToHalted() returns (acts: seq<Action>, w: World)
    ensures Exec(Next, Init(true), acts) == Some(w) && w == Halted()
  {
    var s := Init(true);
    acts, w := RunToServing();
    acts, w := Go(s, acts, w, StopperStep, w.(stopper := SetStopping));
    acts, w := Go(s, acts, w, StopperStep, w.(thread := Stopping, stopper := LoopStop));
    acts, w := Go(s, acts, w, StopperStep, w.(loop := Stopping, stopper := AskStop));
    acts, w := Go(s, acts, w, StopperStep, w.(stopAsked := true, stopper := DropLoop));
    acts, w := Go(s, acts, w, StopperStep, w.(loopGone := true, stopper := Join));
  }

  lemma RunToTheEnd() returns (acts: seq<Action>, w: World)
    ensures Exec(Next, Init(true), acts) == Some(w) && w == Ended()
  {
    var s := Init(true);
    acts, w := RunToHalted();
    acts, w := Go(s, acts, w, WorkerStep, w.(worker := LoopReturned));
    acts, w := Go(s, acts, w, WorkerStep, w.(loop := Stopped, worker := Check));
    acts, w := Go(s, acts, w, WorkerStep, w.(worker := RunPost));
    acts, w := Go(s, acts, w, WorkerStep, w.(postRuns := 1, worker := SetStopped));
    acts, w := Go(s, acts, w, WorkerStep, w.(thread := Stopped, worker := Done));
  }

  /** The repeated start's second read, its setting of the status and its creation. */
  lemma RepeatToTheEnd(before: seq<Action>, w0: World) returns (acts: seq<Action>, w: World)
    requires Exec(Next, Init(true), before) == Some(w0)
    requires w0 == Ended() || w0 == Ended().(joinable := false, stopper := After)
    ensures Exec(Next, Init(true), acts) == Some(w) && w.created == 2 && w.crashed == w0.joinable
  {
    var s := Init(true);
    acts, w := Go(s, before, w0, AgainStep(0), w0.(lateReads := 1, again := w0.again[0 := Decided]));
    acts, w := Go(s, acts, w, AgainStep(0), w.(thread := Starting, restarts := 1, again := w.again[0 := ToCreate]));
    acts, w := Go(s, acts, w, AgainStep(0), Next(w, AgainStep(0)).value);
  }

  /** Both ends of a late read happen: before stop's join has returned it ends the program, and
      afterwards it gives the object a second thread. */
  lemma LateReadHappens() returns (crash: seq<Action>, second: seq<Action>)
    ensures Exec(Next, Init(true), crash).Some? && Exec(Next, Init(true), crash).value.crashed
    ensures Exec(Next, Init(true), second).Some?
    ensures var w := Exec(Next, Init(true), second).value; !w.crashed && w.created == 2
  {
    var acts, w := RunToTheEnd();
    var v;
    crash, v := RepeatToTheEnd(acts, w);
    acts, w := Go(Init(true), acts, w, StopperStep, w.(joinable := false, stopper := After));
    second, v := RepeatToTheEnd(acts, w);
  }

  lemma GoAny(acts: seq<Action>, w: World, a: Action, n: World) returns (more: seq<Action>, m: World)
    requires Exec(AnyNext, Init(true), acts) == Some(w) && AnyNext(w, a) == Some(n)
    ensures more == acts + [a] && Exec(AnyNext, Init(true), more) == Some(n) && m == n
  {
    RunThenStep(AnyNext, Init(true), acts, a);
    more, m := acts + [a], n;
  }

  /** Why calls that overlap the first one are set apart: both can pass the guard and create a
      thread, though no second read is late, and that ends the program. */
  lemma OverlappingStarts() returns (acts: seq<Action>)
    ensures Exec(AnyNext, Init(true), acts).Some?
    ensures var w := Exec(AnyNext, Init(true), acts).value; w.crashed && w.created == 2 && w.lateReads == 0
  {
    var w;
    var s := Init(true);
    acts, w := GoAny([], s, AgainRead(0), s.(again := s.again[0 := ReadOnce(Initialized)]));
    acts, w := GoAny(acts, w, StarterStep, w.(thread := Starting, starter := Spawn));
    acts, w := GoAny(acts, w, StarterStep, w.(created := 1, joinable := true, worker := Begin, starter := Waiting));
    acts, w := GoAny(acts, w, AgainStep(0), w.(again := w.again[0 := Decided]));
    acts, w := GoAny(acts, w, AgainStep(0), w.(restarts := 1, again := w.again[0 := ToCreate]));
    acts, w := GoAny(acts, w, AgainStep(0), w.(created := 2, crashed := true, again := w.again - {0}));
  }

  /** And the first call can find that another has set the status: it returns at once then, before
      there is any thread, though it was to wait. */
  lemma FirstStartCanReturnUnwaited() returns (acts: seq<Action>)
    ensures Exec(AnyNext, Init(true), acts).Some?
    ensures var w := Exec(AnyNext, Init(true), acts).value; w.starter.Back? && w.created == 0
  {
    var w;
    var s := Init(true);
    acts, w := GoAny([], s, AgainRead(0), s.(again := s.again[0 := ReadOnce(Initialized)]));
    acts, w := GoAny(acts, w, AgainStep(0), w.(again := w.again[0 := Decided]));
    acts, w := GoAny(acts, w, AgainStep(0), w.(thread := Starting, restarts := 1, again := w.again[0 := ToCreate]));
    acts, w := GoAny(acts, w, StarterStep, w.(starter := Back));
  }

  /** A stop of a loop that is gone goes straight on to its join. */
  lemma StopOfGoneLoop(w: World)
    requires w.stopper.LoopStop? && w.loopGone && !w.crashed
    ensures AnyNext(w, StopperStep) == Some(w.(stopper := Join))
  {
  }
}
