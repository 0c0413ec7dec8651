/** The event loop object of include/libhv_evpp/EventLoop.h and the timer thread on top of it.
    Each method is one atomic step of the source; the modules EventQueue, TimerTable and
    TimerIds prove what follows when such steps interleave. */
module EventLoops {
  import opened Options
  import Q = EventQueue
  import opened TimerTable
  import Ids = TimerIds

  /** struct Timer: the handler keeps a reference to it while its callback runs, whatever that
      does to the table. */
  class Timer {
    var repeat: nat

    constructor (repeat: nat)
      ensures this.repeat == repeat
    {
      this.repeat := repeat;
    }
  }

  /** The operation with the id that setTimer generates when it is given the invalid one;
      `next` is the counter before it. */
  function Settled(op: Op, tid: nat, next: nat): Op {
    if op.Add? && op.id == Ids.INVALID then Add(Ids.Pack(tid, Ids.NextCount(next)), op.repeat) else op
  }

  function CountAfter(op: Op, next: nat): nat {
    if op.Add? && op.id == Ids.INVALID then Ids.NextCount(next) else next
  }

  /** The table after the functor of a timer call; setTimer does nothing when the loop is gone. */
  function Performed(table: Table, op: Op, tid: nat, next: nat, gone: bool): Table {
    if gone && op.Add? then table else Apply(table, Settled(op, tid, next))
  }

  function AllSettled(ops: seq<Op>, tid: nat, next: nat): seq<Op>
    decreases |ops|
  {
    if ops == [] then []
    else [Settled(ops[0], tid, next)] + AllSettled(ops[1..], tid, CountAfter(ops[0], next))
  }

  class EventLoop {
    var customEvents: seq<Q.Callback>
    var timers: map<TimerID, Timer>
    var nextTimerID: nat
    /** What hloop_tid gives. */
    var tid: nat
    /** loop_ == NULL */
    var gone: bool

    ghost predicate Valid()
      reads this
    {
      forall i, j :: i in timers && j in timers && i != j ==> timers[i] != timers[j]
    }

    /** The timer table as a value. */
    function Entries(): Table
      reads this, timers.Values
    {
      map id | id in timers :: timers[id].repeat
    }

    constructor (tid: nat)
      ensures Valid() && customEvents == [] && timers == map[] && nextTimerID == 0 && this.tid == tid && !gone
    {
      customEvents, timers, nextTimerID, this.tid, gone := [], map[], 0, tid, false;
    }

    // -------------------------------------------------------------------------
    // Events
    // -------------------------------------------------------------------------

    /** The locked section of postEvent: whatever else the queue's machine has in flight, its
        push leaves this queue. */
    method PushEvent(cb: Q.Callback)
      modifies this`customEvents
      ensures gone ==> customEvents == old(customEvents)
      ensures !gone ==> customEvents == old(customEvents) + [cb]
      ensures !gone ==> forall w: Q.World, t :: w.queue == old(customEvents) && t !in w.between ==>
                          Q.Next(w, Q.Push(t, cb)).Some? && Q.Next(w, Q.Push(t, cb)).value.queue == customEvents
    {
      if !gone {
        customEvents := customEvents + [cb];
      }
    }

    /** The locked section of onCustomEvent; the callback runs after it. */
    method TakeEvent() returns (cb: Q.Callback)
      requires customEvents != []
      modifies this`customEvents
      ensures Q.TakeFront(old(customEvents)) == Some((cb, customEvents)) && Entries() == old(Entries())
      ensures forall w: Q.World, i: nat :: w.queue == old(customEvents) && i < |w.posted| ==>
                var n := Q.Next(w, Q.Deliver(i));
                n.Some? && n.value.queue == customEvents && n.value.ran == w.ran + [cb]
    {
      cb := customEvents[0];
      customEvents := customEvents[1..];
    }

    /** onCustomEvent, for the callbacks that the loop's own methods queue. */
    method OnCustomEvent()
      requires Valid() && customEvents != []
      modifies this`customEvents, this`timers, this`nextTimerID, timers.Values
      ensures Valid() && customEvents == old(customEvents)[1..]
      ensures match old(customEvents)[0]
              case User(_) => Entries() == old(Entries()) && nextTimerID == old(nextTimerID)
              case OnTimers(op) =>
                && Entries() == Performed(old(Entries()), op, tid, old(nextTimerID), gone)
                && nextTimerID == if gone then old(nextTimerID) else CountAfter(op, old(nextTimerID))
    {
      var cb := TakeEvent();
      if cb.OnTimers? {
        Perform(cb.op);
      }
    }

    /** runInLoop of the functor of a timer call; `inLoop` says that the loop is running and
        this is its thread. */
    method RunInLoop(op: Op, inLoop: bool)
      requires Valid()
      modifies this`customEvents, this`timers, this`nextTimerID, timers.Values
      ensures Valid() && fresh(timers.Values - old(timers.Values))
      ensures gone || !inLoop ==> timers == old(timers) && nextTimerID == old(nextTimerID)
      ensures !gone && inLoop ==> nextTimerID == CountAfter(op, old(nextTimerID))
      ensures Entries() == if gone || !inLoop then old(Entries()) else Performed(old(Entries()), op, tid, old(nextTimerID), gone)
      ensures customEvents == old(customEvents) + if gone || inLoop then [] else [Q.OnTimers(op)]
      ensures !op.Add? ==> forall k :: k in timers ==> k in old(timers) && timers[k] == old(timers)[k]
    {
      if inLoop && !gone {
        Perform(op);
      } else {
        PushEvent(Q.OnTimers(op));
      }
    }

    /** What the functors do. */
    method Perform(op: Op)
      requires Valid()
      modifies this`timers, this`nextTimerID, timers.Values
      ensures Valid() && fresh(timers.Values - old(timers.Values))
      ensures nextTimerID == if gone then old(nextTimerID) else CountAfter(op, old(nextTimerID))
      ensures Entries() == Performed(old(Entries()), op, tid, old(nextTimerID), gone)
      ensures !op.Add? ==> forall k :: k in timers ==> k in old(timers) && timers[k] == old(timers)[k]
    {
      match op
      case Add(id, repeat) => var _ := SetTimer(repeat, id);
      case Kill(id) => EraseTimer(id);
      case Reset(id) => ReviveTimer(id);
    }

    method EraseTimer(timerID: TimerID)
      requires Valid()
      modifies this`timers
      ensures Valid() && timers == old(timers) - {timerID}
      ensures Entries() == Apply(old(Entries()), Kill(timerID))
    {
      if timerID in timers {
        timers := timers - {timerID};
      }
    }

    method ReviveTimer(timerID: TimerID)
      requires Valid()
      modifies timers.Values
      ensures Entries() == Apply(old(Entries()), Reset(timerID))
    {
      if timerID in timers {
        if timers[timerID].repeat == 0 {
          timers[timerID].repeat := 1;
        }
      }
    }

    // -------------------------------------------------------------------------
    // Timers
    // -------------------------------------------------------------------------

    /** tid(), called on the thread `caller`. */
    function ThreadID(caller: nat): nat
      reads this
    {
      if gone then caller else tid
    }

    method GenerateTimerID(caller: nat) returns (id: TimerID)
      modifies this`nextTimerID
      ensures nextTimerID == Ids.NextCount(old(nextTimerID)) && id == Ids.Pack(ThreadID(caller), nextTimerID)
      ensures id == if gone then Ids.Pack(caller, nextTimerID) else Ids.Pack(tid, nextTimerID)
      ensures forall w, n :: Ids.Follows(w, Ids.Loop(n), Ids.FromLoop(n, ThreadID(caller)), old(nextTimerID), nextTimerID, id)
      ensures old(nextTimerID) < Ids.WORD32 - 1 ==>
                forall t, c: nat :: 1 <= c <= old(nextTimerID) ==> id != Ids.Pack(t, c)
      ensures Entries() == old(Entries())
    {
      var word := if gone then caller else tid;
      nextTimerID := (nextTimerID + 1) % Ids.WORD64;
      id := Ids.Or(word % Ids.WORD32 * Ids.WORD32, nextTimerID);
      IssuedByLoop(word, old(nextTimerID), nextTimerID, id);
    }

    /** setTimer, on the loop's thread; with the invalid id, one is generated. */
    method SetTimer(repeat: nat, timerID: TimerID := Ids.INVALID) returns (id: TimerID)
      requires Valid()
      modifies this`timers, this`nextTimerID
      ensures Valid()
      ensures gone ==> id == Ids.INVALID && timers == old(timers) && nextTimerID == old(nextTimerID)
      ensures !gone ==> Add(id, repeat) == Settled(Add(timerID, repeat), tid, old(nextTimerID))
      ensures !gone ==> nextTimerID == CountAfter(Add(timerID, repeat), old(nextTimerID))
      ensures !gone ==> id in timers && fresh(timers[id]) && timers == old(timers)[id := timers[id]]
      ensures !gone ==> Entries() == Apply(old(Entries()), Add(id, repeat))
    {
      if gone {
        return Ids.INVALID;
      }
      id := timerID;
      if id == Ids.INVALID {
        id := GenerateTimerID(tid);
      }
      var timer := new Timer(repeat);
      timers := timers[id := timer];
    }

    /** setTimerInLoop, called on the thread `caller`: the id is fixed at the call, wherever the
        timer is then set. */
    method SetTimerInLoop(repeat: nat, timerID: TimerID, caller: nat, inLoop: bool) returns (id: TimerID)
      requires Valid()
      modifies this`customEvents, this`timers, this`nextTimerID, timers.Values
      ensures Valid()
      ensures Add(id, repeat) == Settled(Add(timerID, repeat), ThreadID(caller), old(nextTimerID))
      ensures var next := CountAfter(Add(timerID, repeat), old(nextTimerID));
              && nextTimerID == (if gone || !inLoop then next else CountAfter(Add(id, repeat), next))
              && Entries() == if gone || !inLoop then old(Entries())
                              else Performed(old(Entries()), Add(id, repeat), tid, next, gone)
      ensures customEvents == old(customEvents) + if gone || inLoop then [] else [Q.OnTimers(Add(id, repeat))]
    {
      id := timerID;
      if id == Ids.INVALID {
        id := GenerateTimerID(caller);
      }
      RunInLoop(Add(id, repeat), inLoop);
    }

    method KillTimer(timerID: TimerID, inLoop: bool)
      requires Valid()
      modifies this`customEvents, this`timers, this`nextTimerID, timers.Values
      ensures Valid() && nextTimerID == old(nextTimerID)
      ensures Entries() == if gone || !inLoop then old(Entries()) else Apply(old(Entries()), Kill(timerID))
      ensures customEvents == old(customEvents) + if gone || inLoop then [] else [Q.OnTimers(Kill(timerID))]
    {
      RunInLoop(Kill(timerID), inLoop);
    }

    method ResetTimer(timerID: TimerID, inLoop: bool)
      requires Valid()
      modifies this`customEvents, this`timers, this`nextTimerID, timers.Values
      ensures Valid() && nextTimerID == old(nextTimerID)
      ensures Entries() == if gone || !inLoop then old(Entries()) else Apply(old(Entries()), Reset(timerID))
      ensures customEvents == old(customEvents) + if gone || inLoop then [] else [Q.OnTimers(Reset(timerID))]
    {
      RunInLoop(Reset(timerID), inLoop);
    }

    /** One call that a callback makes on the loop's thread. */
    method Call(op: Op)
      requires Valid()
      modifies this`customEvents, this`timers, this`nextTimerID, timers.Values
      ensures Valid() && fresh(timers.Values - old(timers.Values)) && customEvents == old(customEvents)
      ensures gone ==> timers == old(timers) && Entries() == old(Entries()) && nextTimerID == old(nextTimerID)
      ensures !gone ==> nextTimerID == CountAfter(op, old(nextTimerID))
      ensures !gone ==> Entries() == Apply(old(Entries()), Settled(op, tid, old(nextTimerID)))
      ensures forall k :: k in timers && !(op.Add? && Settled(op, tid, old(nextTimerID)).id == k) ==>
                k in old(timers) && timers[k] == old(timers)[k]
    {
      if op.Add? {
        var _ := SetTimer(op.repeat, op.id);
      } else {
        RunInLoop(op, true);
      }
    }

    /** The callback of the timer timerID, doing `ops`; it does not set a timer under that id. */
    method RunCallback(timerID: TimerID, ops: seq<Op>)
      requires Valid() && NeverAdds(AllSettled(ops, tid, nextTimerID), timerID)
      modifies this`customEvents, this`timers, this`nextTimerID, timers.Values
      ensures Valid() && fresh(timers.Values - old(timers.Values)) && customEvents == old(customEvents)
      ensures Entries() == if gone then old(Entries()) else ApplyAll(old(Entries()), AllSettled(ops, tid, old(nextTimerID)))
      ensures nextTimerID == if gone then old(nextTimerID) else AllCounted(ops, old(nextTimerID))
      ensures timerID in timers ==> timerID in old(timers) && timers[timerID] == old(timers)[timerID]
    {
      ghost var start, all := Entries(), AllSettled(ops, tid, nextTimerID);
      for i := 0 to |ops|
        invariant Valid() && fresh(timers.Values - old(timers.Values)) && customEvents == old(customEvents)
        invariant timerID in timers ==> timerID in old(timers) && timers[timerID] == old(timers)[timerID]
        invariant gone ==> timers == old(timers) && Entries() == start && nextTimerID == old(nextTimerID)
        invariant !gone ==> AllCounted(ops[i..], nextTimerID) == AllCounted(ops, old(nextTimerID))
        invariant !gone ==> NeverAdds(AllSettled(ops[i..], tid, nextTimerID), timerID)
        invariant !gone ==> ApplyAll(start, all) == ApplyAll(Entries(), AllSettled(ops[i..], tid, nextTimerID))
      {
        assert ops[i..][0] == ops[i] && ops[i..][1..] == ops[i + 1..];
        if !gone {
          FirstSettled(ops[i..], tid, nextTimerID, timerID, Entries());
        }
        Call(ops[i]);
      }
      assert ops[|ops|..] == [];
    }

    /** onTimer: `ops` is what the callback does. The handler holds on to the timer, so it looks
        at the count of the timer that fired even when the callback has killed it. */
    method OnTimer(timerID: TimerID, ops: seq<Op>)
      requires Valid() && NeverAdds(AllSettled(ops, tid, nextTimerID), timerID)
      modifies this`customEvents, this`timers, this`nextTimerID, timers.Values
      ensures Valid() && fresh(timers.Values - old(timers.Values)) && customEvents == old(customEvents)
      ensures Entries() == Expire(old(Entries()), timerID, if gone then [] else AllSettled(ops, tid, old(nextTimerID)))
      ensures nextTimerID == if gone || timerID !in old(timers) then old(nextTimerID) else AllCounted(ops, old(nextTimerID))
      ensures timerID !in old(timers) ==> timers == old(timers) && Entries() == old(Entries())
    {
      if timerID !in timers {
        return;
      }
      var timer := timers[timerID];
      CountFiring(timerID, timer);
      RunCallback(timerID, ops);
      DropIfSpent(timerID, timer);
    }

    method CountFiring(timerID: TimerID, timer: Timer)
      requires Valid() && timerID in timers && timers[timerID] == timer
      modifies timer
      ensures timerID in old(Entries())
      ensures Entries() == old(Entries())[timerID := CountDown(old(Entries())[timerID])]
    {
      if timer.repeat != INFINITE {
        timer.repeat := if timer.repeat == 0 then INFINITE else timer.repeat - 1;
      }
    }

    method DropIfSpent(timerID: TimerID, timer: Timer)
      requires Valid() && (timerID in timers ==> timers[timerID] == timer)
      modifies this`timers
      ensures Valid() && timers.Values <= old(timers.Values)
      ensures Entries() == DropSpent(old(Entries()), timerID)
    {
      if timer.repeat == 0 {
        timers := timers - {timerID};
      }
    }
  }

  /** A thread with a loop of its own, whose timers it numbers itself. */
  class TimerThread {
    var nextTimerID: nat

    constructor ()
      ensures nextTimerID == 0
    {
      nextTimerID := 0;
    }

    method SetTimer(loop: EventLoop, repeat: nat, caller: nat, inLoop: bool) returns (timerID: TimerID)
      requires loop.Valid()
      modifies this, loop`customEvents, loop`timers, loop`nextTimerID, loop.timers.Values
      ensures loop.Valid() && timerID == nextTimerID
      ensures forall w :: Ids.Follows(w, Ids.TimerThread, Ids.FromTimerThread, old(nextTimerID), nextTimerID, timerID)
      ensures old(nextTimerID) < Ids.INVALID ==> timerID > old(nextTimerID)
      ensures timerID != Ids.INVALID ==>
                && loop.nextTimerID == old(loop.nextTimerID)
                && loop.Entries() == (if loop.gone || !inLoop then old(loop.Entries())
                                      else Apply(old(loop.Entries()), Add(timerID, repeat)))
                && loop.customEvents == old(loop.customEvents) +
                                        if loop.gone || inLoop then [] else [Q.OnTimers(Add(timerID, repeat))]
    {
      nextTimerID := (nextTimerID + 1) % Ids.WORD64;
      timerID := nextTimerID;
      IssuedByTimerThread(old(nextTimerID), timerID);
      var _ := loop.SetTimerInLoop(repeat, timerID, caller, inLoop);
    }
  }

  lemma IssuedByLoop(word: nat, before: nat, after: nat, id: TimerID)
    requires after == (before + 1) % Ids.WORD64 && id == Ids.Pack(word, after)
    ensures forall w, n :: Ids.Follows(w, Ids.Loop(n), Ids.FromLoop(n, word), before, after, id)
    ensures before < Ids.WORD32 - 1 ==> forall t, c: nat :: 1 <= c <= before ==> id != Ids.Pack(t, c)
  {
    forall w, n ensures Ids.Follows(w, Ids.Loop(n), Ids.FromLoop(n, word), before, after, id) {
      Ids.NextCountOf(Ids.Count(w, Ids.Loop(n)));
    }
    if before < Ids.WORD32 - 1 {
      assert after == before + 1;
      forall t, c: nat | 1 <= c <= before ensures id != Ids.Pack(t, c) { Ids.PackInjective(word, after, t, c); }
    }
  }

  lemma IssuedByTimerThread(before: nat, id: TimerID)
    requires id == (before + 1) % Ids.WORD64
    ensures forall w :: Ids.Follows(w, Ids.TimerThread, Ids.FromTimerThread, before, id, id)
    ensures before < Ids.INVALID ==> id > before
  {
    forall w ensures Ids.Follows(w, Ids.TimerThread, Ids.FromTimerThread, before, id, id) {
      Ids.NextCountOf(Ids.Count(w, Ids.TimerThread));
    }
  }

  /** The counter after the calls of a callback. */
  function AllCounted(ops: seq<Op>, next: nat): nat
    decreases |ops|
  {
    if ops == [] then next else AllCounted(ops[1..], CountAfter(ops[0], next))
  }

  lemma FirstSettled(ops: seq<Op>, tid: nat, next: nat, id: TimerID, table: Table)
    requires ops != [] && NeverAdds(AllSettled(ops, tid, next), id)
    ensures var first, rest := Settled(ops[0], tid, next), AllSettled(ops[1..], tid, CountAfter(ops[0], next));
            && !(first.Add? && first.id == id) && NeverAdds(rest, id)
            && ApplyAll(table, AllSettled(ops, tid, next)) == ApplyAll(Apply(table, first), rest)
  {
    var all, rest := AllSettled(ops, tid, next), AllSettled(ops[1..], tid, CountAfter(ops[0], next));
    assert all[0] == Settled(ops[0], tid, next) && all[1..] == rest;
    forall i | 0 <= i < |rest| && rest[i].Add? ensures rest[i].id != id { assert all[i + 1] == rest[i]; }
  }
}
