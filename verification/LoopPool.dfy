/** The start and exit latches of include/libhv_evpp/EventLoopThreadPool.h: n loop threads count
    themselves in and out, the last one in makes the pool running and the last one out makes it
    stopped, while the thread in `start` waits and the thread in `stop` halts them one by one. */
module LoopPool {
  import opened Options
  import opened Runs
  import opened Sizes
  import opened Statuses

  /** A pool thread: before its start functor, about to set the pool running as the last one in,
      serving, in its exit functor, about to set the pool stopped as the last one out, gone. */
  datatype Worker = Absent | InPre | LastIn | Serving | InPost | LastOut | Gone

  datatype Starter = Outside | Creating | Waiting | Back
  datatype Stopper = Before | SetStopping | Halting | Joining | After

  datatype World = World(
    status: KStatus,
    started: nat,           // started_cnt
    exited: nat,            // exited_cnt
    workers: seq<Worker>,   // one for each of the thread_num_ threads
    created: nat,           // threads created so far
    starter: Starter,
    stopper: Stopper,
    halted: nat,            // threads stop has been called on
    startedBy: set<nat>,    // history: the threads that counted themselves in
    exitedBy: set<nat>,     // history: the threads that counted themselves out
    runningSets: nat,       // history: how often the status was set to running
    stoppedSets: nat)       // history: how often it was set to stopped

  function Init(n: nat): World {
    World(Initialized, 0, 0, seq(n, _ => Absent), 0, Outside, Before, 0, {}, {}, 0, 0)
  }

  datatype Action = StarterStep | WorkerStep(i: nat) | StopperStep

  function StarterNext(w: World): Option<World> {
    var n := |w.workers|;
    match w.starter
    case Outside =>
      if n == 0 || AlreadyStarted(w.status, w.status) then Some(w.(starter := Back))
      else Some(w.(status := Starting, starter := Creating))
    case Creating =>
      if w.created < n then Some(w.(workers := w.workers[w.created := InPre], created := w.created + 1))
      else Some(w.(starter := Waiting))
    case Waiting => if Rank(w.status) < Rank(Running) then None else Some(w.(starter := Back))
    case Back => None
  }

  function WorkerNext(w: World, i: nat): Option<World>
    requires i < |w.workers|
  {
    var n := |w.workers|;
    match w.workers[i]
    case Absent => None
    case InPre =>
      Some(w.(started := w.started + 1, startedBy := w.startedBy + {i},
              workers := w.workers[i := if w.started + 1 == n then LastIn else Serving]))
    case LastIn =>
      Some(w.(status := Running, runningSets := w.runningSets + 1, workers := w.workers[i := Serving]))
    case Serving => if i < w.halted then Some(w.(workers := w.workers[i := InPost])) else None
    case InPost =>
      Some(w.(exited := w.exited + 1, exitedBy := w.exitedBy + {i},
              workers := w.workers[i := if w.exited + 1 == n then LastOut else Gone]))
    case LastOut =>
      Some(w.(status := Stopped, stoppedSets := w.stoppedSets + 1, workers := w.workers[i := Gone]))
    case Gone => None
  }

  function StopperNext(w: World): Option<World> {
    match w.stopper
    case Before =>
      if w.starter != Back then None
      else Some(w.(stopper := if NothingToStop(w.status, w.status) then After else SetStopping))
    case SetStopping => Some(w.(status := Stopping, stopper := Halting))
    case Halting =>
      if w.halted < |w.workers| then Some(w.(halted := w.halted + 1)) else Some(w.(stopper := Joining))
    case Joining => if forall i :: 0 <= i < |w.workers| ==> w.workers[i].Gone? then Some(w.(stopper := After)) else None
    case After => None
  }

  function Next(w: World, a: Action): Option<World> {
    match a
    case StarterStep => StarterNext(w)
    case WorkerStep(i) => if i < |w.workers| then WorkerNext(w, i) else None
    case StopperStep => StopperNext(w)
  }

  predicate Out(p: Worker) { p.LastOut? || p.Gone? }

  predicate Leaving(p: Worker) { p.InPost? || Out(p) }

  predicate In(p: Worker) { p.LastIn? || p.Serving? || Leaving(p) }

  /** The two latches are alike: `counted` says who has passed, `last` who passed last and has
      not yet set the status, `sets` how often the status was set. */
  ghost predicate Latch(n: nat, workers: seq<Worker>, passed: Worker -> bool, last: Worker, count: nat,
                        counted: set<nat>, sets: nat)
  {
    && |workers| == n
    && count == |counted|
    && (forall i :: i in counted <==> 0 <= i < n && passed(workers[i]))
    && (forall i, j :: 0 <= i < j < n ==> !(workers[i] == last && workers[j] == last))
    && (forall i :: 0 <= i < n && workers[i] == last ==> count == n && sets == 0)
    && (sets == 1 ==> count == n && forall i :: 0 <= i < n ==> workers[i] != last)
    && (count == n ==> sets == 1 || exists i :: 0 <= i < n && workers[i] == last)
    && sets <= 1
  }

  /** Who may be where. */
  ghost predicate Positions(n: nat, w: World) {
    && |w.workers| == n
    && w.created <= n && (w.starter.Outside? ==> w.created == 0)
    && (w.starter.Waiting? || w.starter.Back? ==> w.created == n)
    && (forall i :: 0 <= i < n ==> (w.workers[i].Absent? <==> i >= w.created))
    && (w.starter.Back? ==> w.runningSets == 1)
    && (!w.stopper.Before? ==> w.starter.Back?)
    && w.halted <= n && (w.halted > 0 ==> !w.stopper.Before? && !w.stopper.SetStopping?)
    && (forall i :: 0 <= i < n && Leaving(w.workers[i]) ==> i < w.halted)
    && (w.stopper.Joining? || w.stopper.After? ==> w.halted == n)
    && (w.stopper.After? ==> w.stoppedSets == 1)
  }

  predicate StatusFits(w: World) {
    w.status == (if w.stoppedSets == 1 then Stopped
                 else if !w.stopper.Before? && !w.stopper.SetStopping? then Stopping
                 else if w.runningSets == 1 then Running
                 else if w.starter.Outside? then Initialized
                 else Starting)
  }

  ghost predicate Inv(n: nat, w: World) {
    && n > 0
    && Latch(n, w.workers, In, LastIn, w.started, w.startedBy, w.runningSets)
    && Latch(n, w.workers, Out, LastOut, w.exited, w.exitedBy, w.stoppedSets)
    && Positions(n, w)
    && StatusFits(w)
  }

  /** Thread i passes the latch. */
  lemma Pass(n: nat, workers: seq<Worker>, passed: Worker -> bool, last: Worker, count: nat,
             counted: set<nat>, sets: nat, i: nat, next: Worker)
    requires Latch(n, workers, passed, last, count, counted, sets) && i < n
    requires !passed(workers[i]) && passed(next) && passed(last)
    requires next == last <==> count + 1 == n
    ensures Latch(n, workers[i := next], passed, last, count + 1, counted + {i}, sets)
  {
    AtMost(counted, n);
    assert count < n;
    assert i !in counted;
    assert forall j :: 0 <= j < n && workers[j] == last ==> j in counted;
    assert forall j :: 0 <= j < n ==> workers[j] != last;
    var after := workers[i := next];
    if count + 1 == n {
      assert after[i] == last;
    }
  }

  /** A move of thread i that is none of the latch's business. */
  lemma Move(n: nat, workers: seq<Worker>, passed: Worker -> bool, last: Worker, count: nat,
             counted: set<nat>, sets: nat, i: nat, next: Worker)
    requires Latch(n, workers, passed, last, count, counted, sets) && i < n
    requires passed(workers[i]) == passed(next) && workers[i] != last && next != last
    ensures Latch(n, workers[i := next], passed, last, count, counted, sets)
  {
    var after := workers[i := next];
    forall k ensures k in counted <==> 0 <= k < n && passed(after[k]) {
      assert k in counted <==> 0 <= k < n && passed(workers[k]);
    }
    assert forall k :: 0 <= k < n ==> (after[k] == last <==> workers[k] == last);
    if count == n && sets != 1 {
      var k :| 0 <= k < n && workers[k] == last;
      assert after[k] == last;
    }
  }

  /** The last one in, or out, sets the status. */
  lemma SetStatus(n: nat, workers: seq<Worker>, passed: Worker -> bool, last: Worker, count: nat,
                  counted: set<nat>, sets: nat, i: nat, next: Worker)
    requires Latch(n, workers, passed, last, count, counted, sets) && i < n
    requires workers[i] == last && next != last && passed(last) && passed(next)
    ensures Latch(n, workers[i := next], passed, last, count, counted, sets + 1)
  {
  }

  /** What a worker's step does to the start latch. */
  lemma WorkerKeepsIn(n: nat, w: World, i: nat)
    requires Inv(n, w) && i < n && WorkerNext(w, i).Some?
    ensures var v := WorkerNext(w, i).value;
            Latch(n, v.workers, In, LastIn, v.started, v.startedBy, v.runningSets)
  {
    var next := WorkerNext(w, i).value.workers[i];
    match w.workers[i]
    case InPre => Pass(n, w.workers, In, LastIn, w.started, w.startedBy, w.runningSets, i, next);
    case LastIn => SetStatus(n, w.workers, In, LastIn, w.started, w.startedBy, w.runningSets, i, next);
    case Serving => Move(n, w.workers, In, LastIn, w.started, w.startedBy, w.runningSets, i, next);
    case InPost => Move(n, w.workers, In, LastIn, w.started, w.startedBy, w.runningSets, i, next);
    case LastOut => Move(n, w.workers, In, LastIn, w.started, w.startedBy, w.runningSets, i, next);
  }

  /** What a worker's step does to the exit latch. */
  lemma WorkerKeepsOut(n: nat, w: World, i: nat)
    requires Inv(n, w) && i < n && WorkerNext(w, i).Some?
    ensures var v := WorkerNext(w, i).value;
            Latch(n, v.workers, Out, LastOut, v.exited, v.exitedBy, v.stoppedSets)
  {
    var next := WorkerNext(w, i).value.workers[i];
    match w.workers[i]
    case InPre => Move(n, w.workers, Out, LastOut, w.exited, w.exitedBy, w.stoppedSets, i, next);
    case LastIn => Move(n, w.workers, Out, LastOut, w.exited, w.exitedBy, w.stoppedSets, i, next);
    case Serving => Move(n, w.workers, Out, LastOut, w.exited, w.exitedBy, w.stoppedSets, i, next);
    case InPost => Pass(n, w.workers, Out, LastOut, w.exited, w.exitedBy, w.stoppedSets, i, next);
    case LastOut => SetStatus(n, w.workers, Out, LastOut, w.exited, w.exitedBy, w.stoppedSets, i, next);
  }

  lemma WorkerKeeps(n: nat, w: World, i: nat)
    requires Inv(n, w) && i < n && WorkerNext(w, i).Some?
    ensures Inv(n, WorkerNext(w, i).value) && Rank(w.status) <= Rank(WorkerNext(w, i).value.status)
  {
    WorkerKeepsIn(n, w, i);
    WorkerKeepsOut(n, w, i);
    if w.workers[i].LastIn? {
      LastInStatus(n, w, i);
    } else if w.workers[i].LastOut? {
      LastOutStatus(n, w, i);
    }
    WorkerKeepsPositions(n, w, i);
    WorkerKeepsStatus(n, w, i);
  }

  /** Worker i moves on; the counts and the status are looked at separately. */
  lemma WorkerMoved(n: nat, w: World, v: World, i: nat)
    requires Positions(n, w) && i < n && i < |v.workers|
    requires v.workers == w.workers[i := v.workers[i]] && !w.workers[i].Absent? && !v.workers[i].Absent?
    requires Leaving(v.workers[i]) ==> i < w.halted
    requires v.created == w.created && v.starter == w.starter && v.stopper == w.stopper && v.halted == w.halted
    requires w.starter.Back? ==> v.runningSets == w.runningSets
    requires w.stopper.After? ==> v.stoppedSets == w.stoppedSets
    ensures Positions(n, v)
  {
  }

  lemma WorkerKeepsPositions(n: nat, w: World, i: nat)
    requires Positions(n, w) && i < n && WorkerNext(w, i).Some?
    requires w.workers[i].LastIn? ==> !w.starter.Back?
    requires w.workers[i].LastOut? ==> !w.stopper.After?
    ensures Positions(n, WorkerNext(w, i).value)
  {
    WorkerMoved(n, w, WorkerNext(w, i).value, i);
  }

  lemma WorkerKeepsStatus(n: nat, w: World, i: nat)
    requires Inv(n, w) && i < n && WorkerNext(w, i).Some?
    ensures StatusFits(WorkerNext(w, i).value)
    ensures Rank(w.status) <= Rank(WorkerNext(w, i).value.status)
  {
    if w.workers[i].LastIn? {
      LastInStatus(n, w, i);
    } else if w.workers[i].LastOut? {
      LastOutStatus(n, w, i);
    }
  }

  /** When the last one out is about to set the pool stopped, a stop is under way. */
  lemma LastOutStatus(n: nat, w: World, i: nat)
    requires Inv(n, w) && i < n && w.workers[i].LastOut?
    ensures w.halted > 0 && w.stoppedSets == 0 && w.status == Stopping && !w.stopper.After?
  {
    assert Leaving(w.workers[i]);
  }

  /** When the last one in is about to set the pool running, nothing has been stopped. */
  lemma LastInStatus(n: nat, w: World, i: nat)
    requires Inv(n, w) && i < n && w.workers[i].LastIn?
    ensures w.stopper.Before? && w.stoppedSets == 0 && w.status == Starting && !w.starter.Back?
  {
    assert w.runningSets == 0 && w.halted == 0;
    assert forall k :: k in w.exitedBy ==> 0 <= k < n && Leaving(w.workers[k]);
    assert w.exitedBy == {};
    assert i < w.created;
  }

  lemma StarterKeeps(n: nat, w: World)
    requires Inv(n, w) && StarterNext(w).Some?
    ensures Inv(n, StarterNext(w).value) && Rank(w.status) <= Rank(StarterNext(w).value.status)
  {
    if w.starter.Creating? && w.created < n {
      Move(n, w.workers, In, LastIn, w.started, w.startedBy, w.runningSets, w.created, InPre);
      Move(n, w.workers, Out, LastOut, w.exited, w.exitedBy, w.stoppedSets, w.created, InPre);
    }
  }

  lemma StopperKeeps(n: nat, w: World)
    requires Inv(n, w) && StopperNext(w).Some?
    ensures Inv(n, StopperNext(w).value) && Rank(w.status) <= Rank(StopperNext(w).value.status)
  {
    if w.stopper.Joining? {
      forall i | 0 <= i < n ensures i in w.exitedBy { assert Out(w.workers[i]); }
      AtMost(w.exitedBy, n);
      AllCounted(w.exitedBy, n);
      assert w.exited == n;
    }
  }

  lemma {:induction false} AllCounted(s: set<nat>, n: nat)
    requires forall i :: 0 <= i < n ==> i in s
    ensures |s| >= n
    decreases n
  {
    if n > 0 {
      AllCounted(s - {n - 1}, n - 1);
    }
  }

  lemma StepKeeps(n: nat, w: World, a: Action)
    requires Inv(n, w) && Next(w, a).Some?
    ensures var v := Next(w, a).value;
            Inv(n, v) && Rank(w.status) <= Rank(v.status)
  {
    match a
    case StarterStep => StarterKeeps(n, w);
    case WorkerStep(i) => WorkerKeeps(n, w, i);
    case StopperStep => StopperKeeps(n, w);
  }

  lemma InitInv(n: nat)
    requires n > 0
    ensures Inv(n, Init(n))
  {
  }

  lemma Reachable(n: nat, acts: seq<Action>)
    requires n > 0 && Exec(Next, Init(n), acts).Some?
    ensures Inv(n, Exec(Next, Init(n), acts).value)
  {
    InitInv(n);
    var inv := (w: World) => Inv(n, w);
    forall w, a | inv(w) && Next(w, a).Some? ensures inv(Next(w, a).value) { StepKeeps(n, w, a); }
    RunKeeps(Next, inv, Init(n), acts);
  }

  /** In every run in which stop follows a returned start that waited: the wait ends only after
      all n threads ran their start step, the pool is stopped only after all n ran their exit
      step, and each of the two statuses is set by exactly one thread. A stop that has returned
      leaves the pool stopped. */
  lemma EveryRun(n: nat, acts: seq<Action>)
    requires n > 0 && Exec(Next, Init(n), acts).Some?
    ensures var w := Exec(Next, Init(n), acts).value;
            && |w.workers| == n
            && (w.starter.Back? ==> w.started == n && w.runningSets == 1 && forall i :: 0 <= i < n ==> In(w.workers[i]))
            && (w.status == Stopped ==> w.exited == n && w.stoppedSets == 1 && forall i :: 0 <= i < n ==> w.workers[i].Gone?)
            && (Rank(w.status) >= Rank(Running) ==> w.started == n && w.runningSets == 1)
            && w.runningSets <= 1 && w.stoppedSets <= 1
            && (w.stopper.After? ==> w.status == Stopped)
  {
    Reachable(n, acts);
    var w := Exec(Next, Init(n), acts).value;
    AtMost(w.startedBy, n);
    AtMost(w.exitedBy, n);
    if w.status == Stopped {
      assert forall i :: 0 <= i < n ==> i in w.exitedBy;
    }
    if w.runningSets == 1 {
      assert forall i :: 0 <= i < n ==> i in w.startedBy;
    }
    if w.exitedBy != {} {
      var i :| i in w.exitedBy;
      assert Leaving(w.workers[i]);
    }
  }

  /** The status at every moment: starting from the call of start until the last thread in sets
      it running, stopping from the call of stop until the last thread out sets it stopped. And no thread
      leaves before stop has halted it. */
  lemma StatusAt(n: nat, acts: seq<Action>)
    requires n > 0 && Exec(Next, Init(n), acts).Some?
    ensures var w := Exec(Next, Init(n), acts).value;
            w.status == (if w.stoppedSets == 1 then Stopped
                         else if !w.stopper.Before? && !w.stopper.SetStopping? then Stopping
                         else if w.runningSets == 1 then Running
                         else if !w.starter.Outside? then Starting
                         else Initialized)
    ensures var w := Exec(Next, Init(n), acts).value;
            && |w.workers| == n && w.halted <= n
            && (w.stopper.Joining? || w.stopper.After? ==> w.halted == n)
            && (w.halted > 0 ==> !w.stopper.Before? && !w.stopper.SetStopping?)
            && forall i :: 0 <= i < n && Leaving(w.workers[i]) ==> i < w.halted
  {
    Reachable(n, acts);
  }

  /** The pool's status never goes backwards. */
  lemma StatusOnlyGrows(n: nat, before: seq<Action>, after: seq<Action>)
    requires n > 0 && Exec(Next, Init(n), before + after).Some?
    ensures Exec(Next, Init(n), before).Some?
    ensures Rank(Exec(Next, Init(n), before).value.status) <= Rank(Exec(Next, Init(n), before + after).value.status)
  {
    RunThenRun(Next, Init(n), before, after);
    Reachable(n, before);
    var w := Exec(Next, Init(n), before).value;
    var inv := (x: World) => Inv(n, x);
    var rank := (x: World) => Rank(x.status) as int;
    forall x, a | inv(x) && Next(x, a).Some?
      ensures inv(Next(x, a).value) && rank(x) <= rank(Next(x, a).value)
    {
      StepKeeps(n, x, a);
    }
    RunNeverLowers(Next, inv, rank, w, after);
  }

  /** A pool of no threads: start and stop return at once and the status stays what it was. */
  lemma EmptyPoolDoesNothing(acts: seq<Action>)
    requires Exec(Next, Init(0), acts).Some?
    ensures var w := Exec(Next, Init(0), acts).value;
            w.status == Initialized && !w.starter.Creating? && !w.starter.Waiting? && (w.stopper.Before? || w.stopper.After?)
    ensures Next(Init(0), StarterStep) == Some(Init(0).(starter := Back))
    ensures Next(Init(0).(starter := Back), StopperStep) == Some(Init(0).(starter := Back, stopper := After))
  {
    var inv := (w: World) =>
      w.workers == [] && w.status == Initialized && (w.starter.Outside? || w.starter.Back?) &&
      (w.stopper.Before? || w.stopper.After?);
    forall w, a | inv(w) && Next(w, a).Some? ensures inv(Next(w, a).value) {}
    RunKeeps(Next, inv, Init(0), acts);
  }

  // ---------------------------------------------------------------------------
  // Progress
  // ---------------------------------------------------------------------------

  function Left(p: Worker): nat {
    match p
    case Absent => 6
    case InPre => 5
    case LastIn => 4
    case Serving => 3
    case InPost => 2
    case LastOut => 1
    case Gone => 0
  }

  function AllLeft(workers: seq<Worker>): nat {
    if workers == [] then 0 else Left(workers[0]) + AllLeft(workers[1..])
  }

  lemma {:induction false} FewerLeft(workers: seq<Worker>, i: nat, p: Worker)
    requires i < |workers| && Left(p) < Left(workers[i])
    ensures AllLeft(workers[i := p]) < AllLeft(workers)
  {
    if i == 0 {
      assert workers[0 := p][1..] == workers[1..];
    } else {
      assert workers[i := p][1..] == workers[1..][i - 1 := p];
      FewerLeft(workers[1..], i - 1, p);
    }
  }

  /** How many steps are left, at most. */
  function Distance(w: World): nat {
    AllLeft(w.workers)
    + (match w.starter case Outside => 3 case Creating => 2 case Waiting => 1 case Back => 0)
    + (match w.stopper case Before => 4 case SetStopping => 3 case Halting => 2 case Joining => 1 case After => 0)
    + if w.halted < |w.workers| then |w.workers| - w.halted else 0
  }

  predicate BothReturned(w: World) { w.starter.Back? && w.stopper.After? }

  /** A thread that can move has less to do after its step. */
  lemma WorkerMovesOn(w: World, i: nat)
    requires i < |w.workers| && !w.workers[i].Absent? && !w.workers[i].Gone?
    requires w.workers[i].Serving? ==> i < w.halted
    ensures WorkerNext(w, i).Some?
    ensures var v := WorkerNext(w, i).value;
            && |v.workers| == |w.workers| && Left(v.workers[i]) < Left(w.workers[i])
            && v.workers == w.workers[i := v.workers[i]]
            && v.starter == w.starter && v.stopper == w.stopper && v.halted == w.halted
  {
  }

  lemma WorkerGetsNearer(n: nat, w: World, i: nat)
    requires |w.workers| == n && i < n && !w.workers[i].Absent? && !w.workers[i].Gone?
    requires w.workers[i].Serving? ==> i < w.halted
    ensures Next(w, WorkerStep(i)).Some? && Distance(Next(w, WorkerStep(i)).value) < Distance(w)
  {
    WorkerMovesOn(w, i);
    FewerLeft(w.workers, i, WorkerNext(w, i).value.workers[i]);
  }

  lemma StarterGetsNearer(n: nat, w: World)
    requires Inv(n, w) && !w.starter.Back? && (w.starter.Waiting? ==> Rank(w.status) >= Rank(Running))
    ensures Next(w, StarterStep).Some? && Distance(Next(w, StarterStep).value) < Distance(w)
  {
    if w.starter.Creating? && w.created < n {
      FewerLeft(w.workers, w.created, InPre);
    }
  }

  /** While start waits, some thread is still in its start step, or about to set the status. */
  lemma WhoHoldsUpStart(n: nat, w: World) returns (i: nat)
    requires Inv(n, w) && w.starter.Waiting? && Rank(w.status) < Rank(Running)
    ensures i < n && (w.workers[i].InPre? || w.workers[i].LastIn?)
  {
    if w.started == n {
      i :| 0 <= i < n && w.workers[i] == LastIn;
    } else {
      if forall k :: 0 <= k < n ==> k in w.startedBy {
        AllCounted(w.startedBy, n);
        AtMost(w.startedBy, n);
      }
      i :| 0 <= i < n && i !in w.startedBy;
    }
  }

  lemma NextStep(n: nat, w: World) returns (a: Action)
    requires Inv(n, w) && !BothReturned(w)
    ensures Next(w, a).Some? && Inv(n, Next(w, a).value) && Distance(Next(w, a).value) < Distance(w)
  {
    if w.starter.Waiting? && Rank(w.status) < Rank(Running) {
      var i := WhoHoldsUpStart(n, w);
      WorkerGetsNearer(n, w, i);
      a := WorkerStep(i);
    } else if !w.starter.Back? {
      StarterGetsNearer(n, w);
      a := StarterStep;
    } else if i :| 0 <= i < n && w.stopper.Joining? && !w.workers[i].Gone? {
      WorkerGetsNearer(n, w, i);
      a := WorkerStep(i);
    } else {
      a := StopperStep;
    }
    StepKeeps(n, w, a);
  }

  /** Nobody waits in vain: every run can go on until start and stop have both returned. */
  lemma StartAndStopCanReturn(n: nat, acts: seq<Action>) returns (more: seq<Action>)
    requires n > 0 && Exec(Next, Init(n), acts).Some?
    ensures Exec(Next, Init(n), acts + more).Some? && BothReturned(Exec(Next, Init(n), acts + more).value)
  {
    Reachable(n, acts);
    var inv := (w: World) => Inv(n, w);
    forall w | inv(w) && !BothReturned(w)
      ensures exists a :: Next(w, a).Some? && inv(Next(w, a).value) && Distance(Next(w, a).value) < Distance(w)
    {
      var a := NextStep(n, w);
    }
    more := CanReach(Next, inv, BothReturned, Distance, Exec(Next, Init(n), acts).value);
    RunThenRun(Next, Init(n), acts, more);
  }
}
