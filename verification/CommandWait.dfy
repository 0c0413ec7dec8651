/** The condition-variable hand-off of src/adb_command.cpp: `waits` blocks until a `weak_up` has
    set the flag; the waiting thread clears the flag while it is not waiting. */
module CommandWait {
  import opened Options
  import opened Runs

  // ---------------------------------------------------------------------------
  // Runs
  // ---------------------------------------------------------------------------

  datatype Owner = NoOne | TheWaiter | AWaker(id: nat)

  /** The thread that waits: outside, wanting the lock, testing the flag under the lock, asleep
      on the condition variable, or woken and wanting the lock again. */
  datatype Waiter = Outside | Locking | Testing | Sleeping | Woken

  /** A thread in weak_up: wanting the lock, holding it, holding it with the flag set, or past
      the unlock and not yet at the notify. */
  datatype Waker = Wants | Holds | HasSet | Unlocked

  datatype World = World(
    flag: int,
    owner: Owner,
    waiter: Waiter,
    wakers: map<nat, Waker>,
    setSinceReset: bool,   // history: some weak_up has set the flag since the last reset
    finished: nat,         // history: how often waits has returned
    earlyReturn: bool)     // history: waits has returned with no weak_up since the last reset

  const INIT := World(0, NoOne, Outside, map[], false, 0, false)

  datatype Action = ResetFlag | WaitStep | SpuriousWakeUp | WakeStep(id: nat)

  function WaitNext(w: World): Option<World> {
    match w.waiter
    case Outside => Some(w.(waiter := Locking))
    case Locking => if w.owner.NoOne? then Some(w.(owner := TheWaiter, waiter := Testing)) else None
    case Testing =>
      if w.flag == 1 then
        Some(w.(owner := NoOne, waiter := Outside, finished := w.finished + 1,
                earlyReturn := w.earlyReturn || !w.setSinceReset))
      else Some(w.(owner := NoOne, waiter := Sleeping))
    case Sleeping => None
    case Woken => if w.owner.NoOne? then Some(w.(owner := TheWaiter, waiter := Testing)) else None
  }

  function WakeNext(w: World, id: nat): Option<World> {
    if id !in w.wakers then Some(w.(wakers := w.wakers[id := Wants]))
    else
      match w.wakers[id]
      case Wants =>
        if w.owner.NoOne? then Some(w.(owner := AWaker(id), wakers := w.wakers[id := Holds])) else None
      case Holds => Some(w.(flag := 1, setSinceReset := true, wakers := w.wakers[id := HasSet]))
      case HasSet => Some(w.(owner := NoOne, wakers := w.wakers[id := Unlocked]))
      case Unlocked =>
        Some(w.(waiter := if w.waiter.Sleeping? then Woken else w.waiter, wakers := w.wakers - {id}))
  }

  function Next(w: World, a: Action): Option<World> {
    match a
    case ResetFlag => if w.waiter.Outside? then Some(w.(flag := 0, setSinceReset := false)) else None
    case WaitStep => WaitNext(w)
    case SpuriousWakeUp => if w.waiter.Sleeping? then Some(w.(waiter := Woken)) else None
    case WakeStep(id) => WakeNext(w, id)
  }

  // ---------------------------------------------------------------------------
  // The command object
  // ---------------------------------------------------------------------------

  /** Each method is, when no other thread comes in between, the machine's steps of one call
      one after another. */
  class AdbCommand {
    var commandFinished: int

    constructor ()
      ensures commandFinished == INIT.flag
    {
      commandFinished := 0;
    }

    method Resume()
      modifies this
      ensures forall w: World :: w.waiter.Outside? ==>
                Next(w, ResetFlag).Some? && Next(w, ResetFlag).value.flag == commandFinished
    {
      commandFinished := 0;
    }

    /** A whole call, by a thread not yet in weak_up, when the lock is free. */
    method WeakUp()
      modifies this
      ensures forall w: World, id: nat :: w.owner.NoOne? && id !in w.wakers ==>
                Exec(Next, w, WholeWeakUp(id)) ==
                Some(w.(flag := commandFinished, setSinceReset := true,
                        waiter := if w.waiter.Sleeping? then Woken else w.waiter))
    {
      commandFinished := 1;
      forall w: World, id: nat | w.owner.NoOne? && id !in w.wakers
        ensures Exec(Next, w, WholeWeakUp(id)) ==
                Some(w.(flag := 1, setSinceReset := true,
                        waiter := if w.waiter.Sleeping? then Woken else w.waiter))
      {
        WeakUpRuns(w, id);
      }
    }

    /** A call of waits, up to its return or to its first sleep, when the lock is free. */
    method Waits() returns (returned: bool)
      ensures forall w: World :: w.flag == commandFinished && w.owner.NoOne? && w.waiter.Outside? ==>
                var run := Exec(Next, w, [WaitStep, WaitStep, WaitStep]);
                run.Some? && run.value.owner.NoOne? &&
                if returned then run.value.waiter.Outside? && run.value.finished == w.finished + 1
                else run.value.waiter.Sleeping? && run.value.finished == w.finished
    {
      returned := commandFinished == 1;
      forall w: World | w.owner.NoOne? && w.waiter.Outside?
        ensures Exec(Next, w, [WaitStep, WaitStep, WaitStep]) ==
                Next(w.(owner := TheWaiter, waiter := Testing), WaitStep)
      {
        RunOfTwo(Next, w, WaitStep, WaitStep);
        RunThenStep(Next, w, [WaitStep, WaitStep], WaitStep);
        assert [WaitStep, WaitStep] + [WaitStep] == [WaitStep, WaitStep, WaitStep];
      }
    }
  }

  /** Call, lock, set, unlock, notify. */
  function WholeWeakUp(id: nat): seq<Action> {
    [WakeStep(id), WakeStep(id)] + [WakeStep(id)] + [WakeStep(id)] + [WakeStep(id)]
  }

  lemma WeakUpRuns(w: World, id: nat)
    requires w.owner.NoOne? && id !in w.wakers
    ensures Exec(Next, w, WholeWeakUp(id)) ==
            Some(w.(flag := 1, setSinceReset := true, waiter := if w.waiter.Sleeping? then Woken else w.waiter))
  {
    var a := WakeStep(id);
    RunOfTwo(Next, w, a, a);
    var w2 := w.(owner := AWaker(id), wakers := w.wakers[id := Wants][id := Holds]);
    RunThenStep(Next, w, [a, a], a);
    var w3 := w2.(flag := 1, setSinceReset := true, wakers := w2.wakers[id := HasSet]);
    RunThenStep(Next, w, [a, a] + [a], a);
    var w4 := w3.(owner := NoOne, wakers := w3.wakers[id := Unlocked]);
    RunThenStep(Next, w, [a, a] + [a] + [a], a);
    assert w4.wakers - {id} == w.wakers;
  }

  /** A weak_up that has set the flag and not yet notified. */
  predicate MustNotify(w: World, id: nat) {
    id in w.wakers && (w.wakers[id].HasSet? || w.wakers[id].Unlocked?)
  }

  ghost predicate Inv(w: World) {
    && (w.owner.TheWaiter? <==> w.waiter.Testing?)
    && (forall id :: id in w.wakers && (w.wakers[id].Holds? || w.wakers[id].HasSet?) <==> w.owner == AWaker(id))
    && (w.flag == 0 || w.flag == 1) && (w.flag == 1 <==> w.setSinceReset)
    && !w.earlyReturn
    && (w.waiter.Sleeping? && w.flag == 1 ==> exists id :: MustNotify(w, id))
  }

  lemma StepKeeps(w: World, a: Action)
    requires Inv(w) && Next(w, a).Some?
    ensures Inv(Next(w, a).value)
  {
    var n := Next(w, a).value;
    if n.waiter.Sleeping? && n.flag == 1 {
      if a.WakeStep? && w.waiter.Sleeping? && w.flag == 1 {
        var id :| MustNotify(w, id);
        assert MustNotify(n, id);
      } else if a.WakeStep? && a.id in w.wakers && w.wakers[a.id].Holds? {
        assert MustNotify(n, a.id);
      }
    }
  }

  lemma Reachable(acts: seq<Action>)
    requires Exec(Next, INIT, acts).Some?
    ensures Inv(Exec(Next, INIT, acts).value)
  {
    forall w, a | Inv(w) && Next(w, a).Some? ensures Inv(Next(w, a).value) { StepKeeps(w, a); }
    RunKeeps(Next, Inv, INIT, acts);
  }

  /** In every reachable state the lock has at most one holder, `waits` has only ever returned
      after a weak_up since the last reset, and a sleeper whose flag is already set has a
      weak_up still on its way to the notify. */
  lemma NoLostWakeUp(acts: seq<Action>)
    requires Exec(Next, INIT, acts).Some?
    ensures var w := Exec(Next, INIT, acts).value;
            && !w.earlyReturn && (w.flag == 1 <==> w.setSinceReset)
            && (w.waiter.Sleeping? && w.flag == 1 ==> exists id :: MustNotify(w, id))
            && (forall i, j :: i in w.wakers && j in w.wakers && w.wakers[i].HasSet? && w.wakers[j].HasSet? ==> i == j)
            && (w.waiter.Testing? ==> forall i :: i in w.wakers ==> !w.wakers[i].Holds? && !w.wakers[i].HasSet?)
  {
    Reachable(acts);
  }

  /** A wake-up that nobody meant changes nothing: the sleeper tests the flag and, if it is not
      set, sleeps again. */
  lemma SpuriousWakeUpIsHarmless(w: World)
    requires w.waiter.Sleeping? && w.owner.NoOne? && w.flag != 1
    ensures Exec(Next, w, [SpuriousWakeUp, WaitStep] + [WaitStep]) == Some(w)
  {
    RunOfTwo(Next, w, SpuriousWakeUp, WaitStep);
    RunThenStep(Next, w, [SpuriousWakeUp, WaitStep], WaitStep);
  }

  /** Such a sleeper is never stuck: the threads already in weak_up and the sleeper itself can
      take steps after which `waits` returns. */
  lemma SleeperCanReturn(acts: seq<Action>) returns (more: seq<Action>)
    requires Exec(Next, INIT, acts).Some?
    requires var w := Exec(Next, INIT, acts).value; w.waiter.Sleeping? && w.flag == 1
    ensures Exec(Next, INIT, acts + more).Some?
    ensures Exec(Next, INIT, acts + more).value.finished == Exec(Next, INIT, acts).value.finished + 1
  {
    Reachable(acts);
    var w := Exec(Next, INIT, acts).value;
    var now := w;
    more := [];
    assert acts + more == acts;
    if w.owner.AWaker? {
      more, now := ReleaseLock(acts, w);
    }
    var before := now;
    if now.waiter.Sleeping? {
      var id :| MustNotify(now, id);
      more, now := Notify(acts, more, now, id);
    }
    assert now.waiter.Woken? && now.owner.NoOne? && now.flag == 1;
    more, now := Advance(acts, more, now, WaitStep);
    more, now := Advance(acts, more, now, WaitStep);
  }

  lemma Advance(acts: seq<Action>, more: seq<Action>, w: World, a: Action) returns (further: seq<Action>, n: World)
    requires Exec(Next, INIT, acts + more) == Some(w) && Next(w, a).Some?
    ensures further == more + [a] && Some(n) == Next(w, a)
    ensures Exec(Next, INIT, acts + further) == Some(n)
  {
    further, n := more + [a], Next(w, a).value;
    RunThenStep(Next, INIT, acts + more, a);
    assert acts + more + [a] == acts + further;
  }

  /** The weak_up that holds the lock sets the flag, if it has not, and lets go. */
  lemma ReleaseLock(acts: seq<Action>, w: World) returns (more: seq<Action>, n: World)
    requires Exec(Next, INIT, acts) == Some(w) && w.waiter.Sleeping? && w.flag == 1 && w.owner.AWaker?
    ensures Exec(Next, INIT, acts + more) == Some(n)
    ensures n.owner.NoOne? && n.flag == 1 && n.finished == w.finished && n.waiter.Sleeping?
    ensures exists id :: MustNotify(n, id)
  {
    Reachable(acts);
    var id := w.owner.id;
    assert id in w.wakers && (w.wakers[id].Holds? || w.wakers[id].HasSet?);
    more, n := [], w;
    assert acts + more == acts;
    if n.wakers[id].Holds? {
      more, n := Advance(acts, more, n, WakeStep(id));
    }
    more, n := Advance(acts, more, n, WakeStep(id));
    assert MustNotify(n, id);
  }

  lemma Notify(acts: seq<Action>, more: seq<Action>, w: World, id: nat) returns (further: seq<Action>, n: World)
    requires Exec(Next, INIT, acts + more) == Some(w) && w.waiter.Sleeping? && w.flag == 1 && w.owner.NoOne?
    requires MustNotify(w, id)
    ensures Exec(Next, INIT, acts + further) == Some(n)
    ensures n.owner.NoOne? && n.flag == 1 && n.finished == w.finished && n.waiter.Woken?
  {
    Reachable(acts + more);
    further, n := Advance(acts, more, w, WakeStep(id));
  }
}
