/** The timer table of include/libhv_evpp/EventLoop.h: setTimer, killTimer, resetTimer and the
    expiry handler, whose callback may itself set, kill and reset timers, its own included. */
module TimerTable {
  import opened Options
  import opened Runs

  type TimerID = nat

  /** The repeat count that is never counted down. */
  const INFINITE: nat := 0xFFFF_FFFF

  /** What an entry of the table holds besides its callback: how often it is still to fire. */
  type Table = map<TimerID, nat>

  datatype Op =
    | Add(id: TimerID, repeat: nat)
    | Kill(id: TimerID)
    | Reset(id: TimerID)

  function Apply(t: Table, op: Op): Table {
    match op
    case Add(id, repeat) => t[id := repeat]
    case Kill(id) => t - {id}
    case Reset(id) => if id in t && t[id] == 0 then t[id := 1] else t
  }

  function ApplyAll(t: Table, ops: seq<Op>): Table
    decreases |ops|
  {
    if ops == [] then t else ApplyAll(Apply(t, ops[0]), ops[1..])
  }

  /** An unsigned count goes from 0 to its largest value, which is INFINITE. */
  function CountDown(repeat: nat): nat {
    if repeat == INFINITE || repeat == 0 then INFINITE else repeat - 1
  }

  /** An entry whose count has reached 0 is dropped after its callback. */
  function DropSpent(t: Table, id: TimerID): Table {
    if id in t && t[id] == 0 then t - {id} else t
  }

  /** onTimer for the timer id, whose callback performs ops. */
  function Expire(t: Table, id: TimerID, ops: seq<Op>): Table {
    if id !in t then t else DropSpent(ApplyAll(t[id := CountDown(t[id])], ops), id)
  }

  // ---------------------------------------------------------------------------
  // What an expiry does
  // ---------------------------------------------------------------------------

  /** The same timers with the same counts, apart from id. */
  ghost predicate SameBut(t: Table, u: Table, id: TimerID) {
    forall k :: k != id ==> (k in t <==> k in u) && (k in t && k in u ==> t[k] == u[k])
  }

  lemma {:induction false} OthersAlone(t: Table, u: Table, id: TimerID, ops: seq<Op>)
    requires SameBut(t, u, id)
    ensures SameBut(ApplyAll(t, ops), ApplyAll(u, ops), id)
    decreases |ops|
  {
    if ops != [] {
      OthersAlone(Apply(t, ops[0]), Apply(u, ops[0]), id, ops[1..]);
    }
  }

  /** To every timer but its own, an expiry does what the calls of its callback do; a timer that
      is not in the table has no callback to run. */
  lemma ExpiryOfOthers(t: Table, id: TimerID, ops: seq<Op>)
    ensures id in t ==> SameBut(Expire(t, id, ops), ApplyAll(t, ops), id)
    ensures id !in t ==> Expire(t, id, ops) == t
  {
    if id in t {
      OthersAlone(t[id := CountDown(t[id])], t, id, ops);
    }
  }

  /** Whether the callback kills timer id, or else resets it. */
  predicate Kills(ops: seq<Op>, id: TimerID) { Kill(id) in ops }
  predicate Resets(ops: seq<Op>, id: TimerID) { Reset(id) in ops }

  ghost predicate NeverAdds(ops: seq<Op>, id: TimerID) {
    forall i :: 0 <= i < |ops| && ops[i].Add? ==> ops[i].id != id
  }

  /** What a callback that does not set timer id anew makes of it. */
  lemma {:induction false} OwnCount(t: Table, id: TimerID, ops: seq<Op>)
    requires NeverAdds(ops, id)
    ensures id in ApplyAll(t, ops) <==> id in t && !Kills(ops, id)
    ensures id in t && !Kills(ops, id) ==>
            ApplyAll(t, ops)[id] == if t[id] == 0 && Resets(ops, id) then 1 else t[id]
    decreases |ops|
  {
    if ops != [] {
      assert ops == [ops[0]] + ops[1..];
      assert NeverAdds(ops[1..], id) by {
        forall i | 0 <= i < |ops| - 1 && ops[1..][i].Add? ensures ops[1..][i].id != id { assert ops[1..][i] == ops[i + 1]; }
      }
      OwnCount(Apply(t, ops[0]), id, ops[1..]);
    }
  }

  /** To its own timer: a kill drops it; a timer without end stays; any other has one firing
      less, and after its last one is dropped, unless the callback has reset it. */
  lemma ExpiryOfOwn(t: Table, id: TimerID, ops: seq<Op>)
    requires id in t && 1 <= t[id] <= INFINITE && NeverAdds(ops, id)
    ensures var u := Expire(t, id, ops);
            && (id in u <==> !Kills(ops, id) && (t[id] > 1 || Resets(ops, id)))
            && (id in u ==> u[id] == if t[id] == INFINITE then INFINITE else if t[id] == 1 then 1 else t[id] - 1)
  {
    OwnCount(t[id := CountDown(t[id])], id, ops);
  }

  // ---------------------------------------------------------------------------
  // Runs
  // ---------------------------------------------------------------------------

  /** What has happened to a timer since it was set. */
  datatype History = History(initial: nat, fired: nat, revived: nat, killed: bool)

  datatype World = World(table: Table, past: map<TimerID, History>)

  const INIT := World(map[], map[])

  /** A step of the loop thread: one operation, or one expiry the C loop delivers, possibly of
      a timer that is gone. Timers are set under fresh ids with a repeat of at least 1. */
  datatype Action = Do(op: Op) | Expiry(id: TimerID, ops: seq<Op>)

  function DoOp(w: World, op: Op): Option<World> {
    var table := Apply(w.table, op);
    match op
    case Add(id, repeat) =>
      if id in w.past || repeat < 1 || repeat > INFINITE then None
      else Some(World(table, w.past[id := History(repeat, 0, 0, false)]))
    case Kill(id) =>
      if id in w.table && id in w.past then Some(World(table, w.past[id := w.past[id].(killed := true)]))
      else Some(World(table, w.past))
    case Reset(id) =>
      if id in w.table && w.table[id] == 0 && id in w.past then
        Some(World(table, w.past[id := w.past[id].(revived := w.past[id].revived + 1)]))
      else Some(World(table, w.past))
  }

  function DoAll(w: World, ops: seq<Op>): Option<World>
    decreases |ops|
  {
    if ops == [] then Some(w)
    else
      match DoOp(w, ops[0])
      case None => None
      case Some(v) => DoAll(v, ops[1..])
  }

  function Fire(w: World, id: TimerID): World
    requires id in w.table && id in w.past
  {
    World(w.table[id := CountDown(w.table[id])], w.past[id := w.past[id].(fired := w.past[id].fired + 1)])
  }

  function Next(w: World, a: Action): Option<World> {
    match a
    case Do(op) => DoOp(w, op)
    case Expiry(id, ops) =>
      if id !in w.table || id !in w.past then Some(w)
      else
        match DoAll(Fire(w, id), ops)
        case None => None
        case Some(v) => Some(v.(table := DropSpent(v.table, id)))
  }

  /** The table of the machine moves as the table functions say. */
  lemma {:induction false} DoAllTable(w: World, ops: seq<Op>)
    requires DoAll(w, ops).Some?
    ensures DoAll(w, ops).value.table == ApplyAll(w.table, ops)
    decreases |ops|
  {
    if ops != [] {
      DoAllTable(DoOp(w, ops[0]).value, ops[1..]);
    }
  }

  lemma StepTable(w: World, a: Action)
    requires w.table.Keys <= w.past.Keys && Next(w, a).Some?
    ensures Next(w, a).value.table ==
            match a
            case Do(op) => Apply(w.table, op)
            case Expiry(id, ops) => Expire(w.table, id, ops)
  {
    if a.Expiry? && a.id in w.table {
      DoAllTable(Fire(w, a.id), a.ops);
    }
  }

  function Remaining(t: Table, id: TimerID): nat {
    if id in t then t[id] else 0
  }

  /** The books of one timer. `firing` says that its callback is running. */
  ghost predicate Balanced(t: Table, id: TimerID, h: History, firing: bool) {
    && (id in t ==> !h.killed && (t[id] >= 1 || firing))
    && (h.initial == INFINITE ==> h.revived == 0 && (!h.killed ==> id in t && t[id] == INFINITE))
    && (h.initial != INFINITE ==>
          && Remaining(t, id) < INFINITE
          && (!h.killed ==> h.fired + Remaining(t, id) == h.initial + h.revived))
    && h.revived <= h.fired
    && (id in t && t[id] == 0 ==> h.revived < h.fired)
    && 1 <= h.initial <= INFINITE
  }

  /** The invariant while the callback of `firing` runs, or, with None, between steps. */
  ghost predicate InvWhile(w: World, firing: Option<TimerID>) {
    && w.table.Keys <= w.past.Keys
    && forall id :: id in w.past ==> Balanced(w.table, id, w.past[id], firing == Some(id))
  }

  ghost predicate Inv(w: World) { InvWhile(w, None) }

  lemma OpKeeps(w: World, op: Op, firing: Option<TimerID>)
    requires InvWhile(w, firing) && DoOp(w, op).Some?
    ensures InvWhile(DoOp(w, op).value, firing)
  {
    var v := DoOp(w, op).value;
    forall id | id in v.past ensures Balanced(v.table, id, v.past[id], firing == Some(id)) {
      if id in w.past {
        assert Balanced(w.table, id, w.past[id], firing == Some(id));
        OpKeepsBalance(w, op, firing == Some(id), id);
      }
    }
  }

  lemma OpKeepsBalance(w: World, op: Op, firing: bool, id: TimerID)
    requires DoOp(w, op).Some? && id in w.past && Balanced(w.table, id, w.past[id], firing)
    ensures id in DoOp(w, op).value.past
    ensures Balanced(DoOp(w, op).value.table, id, DoOp(w, op).value.past[id], firing)
  {
  }

  lemma {:induction false} OpsKeep(w: World, ops: seq<Op>, firing: Option<TimerID>)
    requires InvWhile(w, firing) && DoAll(w, ops).Some?
    ensures InvWhile(DoAll(w, ops).value, firing)
    decreases |ops|
  {
    if ops != [] {
      OpKeeps(w, ops[0], firing);
      OpsKeep(DoOp(w, ops[0]).value, ops[1..], firing);
    }
  }

  lemma FireKeeps(w: World, id: TimerID)
    requires Inv(w) && id in w.table
    ensures InvWhile(Fire(w, id), Some(id))
  {
    var v := Fire(w, id);
    forall k | k in v.past ensures Balanced(v.table, k, v.past[k], Some(id) == Some(k)) {
      assert Balanced(w.table, k, w.past[k], false);
    }
  }

  lemma StepKeeps(w: World, a: Action)
    requires Inv(w) && Next(w, a).Some?
    ensures Inv(Next(w, a).value)
  {
    match a
    case Do(op) => OpKeeps(w, op, None);
    case Expiry(id, ops) =>
      if id in w.table {
        FireKeeps(w, id);
        OpsKeep(Fire(w, id), ops, Some(id));
        var v, n := DoAll(Fire(w, id), ops).value, Next(w, a).value;
        forall k | k in n.past ensures Balanced(n.table, k, n.past[k], false) {
          assert Balanced(v.table, k, v.past[k], Some(id) == Some(k));
        }
      }
  }

  lemma AllReachable(acts: seq<Action>)
    requires Exec(Next, INIT, acts).Some?
    ensures Inv(Exec(Next, INIT, acts).value)
  {
    forall w, a | Inv(w) && Next(w, a).Some? ensures Inv(Next(w, a).value) { StepKeeps(w, a); }
    RunKeeps(Next, Inv, INIT, acts);
  }

  /** In every run: no entry rests with a count of 0; for every finite timer that was not
      killed, firings and what is left to fire add up to the initial count and the revivals;
      and no timer was revived more often than it fired. A timer set to repeat for ever is in
      the table until it is killed. */
  lemma EveryRun(acts: seq<Action>)
    requires Exec(Next, INIT, acts).Some?
    ensures var w := Exec(Next, INIT, acts).value;
            && (forall id :: id in w.table ==> id in w.past && w.table[id] >= 1)
            && forall id :: id in w.past ==>
                 var h := w.past[id];
                 && h.revived <= h.fired
                 && (h.killed ==> id !in w.table)
                 && (!h.killed && h.initial != INFINITE ==> h.fired + Remaining(w.table, id) == h.initial + h.revived)
                 && (!h.killed && h.initial == INFINITE ==> id in w.table)
  {
    AllReachable(acts);
    var w := Exec(Next, INIT, acts).value;
    forall id | id in w.past ensures Balanced(w.table, id, w.past[id], false) {}
  }

  ghost predicate KilledAfter(w: World, id: TimerID, fired: nat) {
    id in w.past && w.past[id].killed && w.past[id].fired == fired
  }

  lemma {:induction false} OpsKeepKilled(w: World, ops: seq<Op>, firing: Option<TimerID>, id: TimerID, fired: nat)
    requires InvWhile(w, firing) && DoAll(w, ops).Some? && KilledAfter(w, id, fired)
    ensures KilledAfter(DoAll(w, ops).value, id, fired)
    decreases |ops|
  {
    if ops != [] {
      OpKeeps(w, ops[0], firing);
      OpsKeepKilled(DoOp(w, ops[0]).value, ops[1..], firing, id, fired);
    }
  }

  lemma StepKeepsKilled(w: World, a: Action, id: TimerID, fired: nat)
    requires Inv(w) && Next(w, a).Some? && KilledAfter(w, id, fired)
    ensures Inv(Next(w, a).value) && KilledAfter(Next(w, a).value, id, fired)
  {
    StepKeeps(w, a);
    assert Balanced(w.table, id, w.past[id], false);
    match a
    case Do(op) =>
    case Expiry(k, ops) =>
      if k in w.table {
        FireKeeps(w, k);
        OpsKeepKilled(Fire(w, k), ops, Some(k), id, fired);
      }
  }

  lemma KilledForGood(w: World, id: TimerID, fired: nat, after: seq<Action>)
    requires Inv(w) && KilledAfter(w, id, fired) && Exec(Next, w, after).Some?
    ensures var n := Exec(Next, w, after).value;
            KilledAfter(n, id, fired) && id !in n.table
  {
    var inv := (x: World) => Inv(x) && KilledAfter(x, id, fired);
    forall x, a | inv(x) && Next(x, a).Some? ensures inv(Next(x, a).value) { StepKeepsKilled(x, a, id, fired); }
    RunKeeps(Next, inv, w, after);
    var n := Exec(Next, w, after).value;
    assert Balanced(n.table, id, n.past[id], false);
  }

  /** A timer that has been killed, at whatever point of whatever run, in a callback or out of
      one, is out of the table and never runs its callback again: over any continuation, the
      number of times it fired stays what it was, and an expiry of it that is delivered still
      changes nothing, whatever its callback would do. */
  lemma KilledNeverFires(before: seq<Action>, after: seq<Action>, id: TimerID)
    requires Exec(Next, INIT, before + after).Some?
    ensures Exec(Next, INIT, before).Some?
    ensures var w, n := Exec(Next, INIT, before).value, Exec(Next, INIT, before + after).value;
            id in w.past && w.past[id].killed ==>
              && id !in w.table && id !in n.table && id in n.past && n.past[id].fired == w.past[id].fired
              && forall ops :: Next(n, Expiry(id, ops)) == Some(n)
  {
    RunThenRun(Next, INIT, before, after);
    AllReachable(before);
    var w := Exec(Next, INIT, before).value;
    if id in w.past && w.past[id].killed {
      assert Balanced(w.table, id, w.past[id], false);
      KilledForGood(w, id, w.past[id].fired, after);
    }
  }

  /** Every expiry of a timer that is not in the table changes nothing, in any run. */
  lemma StaleExpiry(acts: seq<Action>, id: TimerID, ops: seq<Op>)
    requires Exec(Next, INIT, acts).Some? && id !in Exec(Next, INIT, acts).value.table
    ensures Exec(Next, INIT, acts + [Expiry(id, ops)]) == Exec(Next, INIT, acts)
  {
    RunThenStep(Next, INIT, acts, Expiry(id, ops));
  }

  /** A kill that is a step of its own: the firings are those at the kill. */
  lemma KilledByStep(before: seq<Action>, id: TimerID, after: seq<Action>)
    requires Exec(Next, INIT, before).Some? && id in Exec(Next, INIT, before).value.table
    requires Exec(Next, INIT, before + [Do(Kill(id))] + after).Some?
    ensures var w := Exec(Next, INIT, before).value;
            var n := Exec(Next, INIT, before + [Do(Kill(id))] + after).value;
            id in w.past && id in n.past && n.past[id].fired == w.past[id].fired && id !in n.table
  {
    AllReachable(before);
    RunThenStep(Next, INIT, before, Do(Kill(id)));
    KilledNeverFires(before + [Do(Kill(id))], after, id);
  }

  lemma {:induction false} DoAllInTwo(w: World, first: seq<Op>, second: seq<Op>)
    requires DoAll(w, first + second).Some?
    ensures DoAll(w, first).Some? && DoAll(w, first + second) == DoAll(DoAll(w, first).value, second)
    decreases |first|
  {
    if first == [] {
      assert first + second == second;
    } else {
      assert (first + second)[1..] == first[1..] + second;
      DoAllInTwo(DoOp(w, first[0]).value, first[1..], second);
    }
  }

  /** The moment of the kill inside a callback, that of the killed timer or of another one: from
      there on, through the rest of the callback and of the run, it does not fire. */
  lemma KilledInCallback(before: seq<Action>, running: TimerID, ops: seq<Op>, more: seq<Op>, id: TimerID, after: seq<Action>)
    requires Exec(Next, INIT, before).Some? && running in Exec(Next, INIT, before).value.table
    requires Exec(Next, INIT, before + [Expiry(running, ops + [Kill(id)] + more)] + after).Some?
    ensures var w := Exec(Next, INIT, before).value;
            var n := Exec(Next, INIT, before + [Expiry(running, ops + [Kill(id)] + more)] + after).value;
            && running in w.past && DoAll(Fire(w, running), ops).Some?
            && var v := DoAll(Fire(w, running), ops).value;
               id in v.table ==>
                 id in v.past && id in n.past && n.past[id].fired == v.past[id].fired && id !in n.table
  {
    var w := Exec(Next, INIT, before).value;
    var expiry := Expiry(running, ops + [Kill(id)] + more);
    AllReachable(before);
    RunThenRun(Next, INIT, before + [expiry], after);
    RunThenStep(Next, INIT, before, expiry);
    var v0 := Fire(w, running);
    DoAllInTwo(v0, ops + [Kill(id)], more);
    DoAllInTwo(v0, ops, [Kill(id)]);
    var v := DoAll(v0, ops).value;
    FireKeeps(w, running);
    OpsKeep(v0, ops, Some(running));
    if id in v.table {
      KilledLaterOn(w, running, expiry, v, more, id, after);
    }
  }

  lemma KilledLaterOn(w: World, running: TimerID, expiry: Action, v: World, more: seq<Op>, id: TimerID, after: seq<Action>)
    requires Inv(w) && expiry.Expiry? && expiry.id == running && running in w.table
    requires InvWhile(v, Some(running)) && id in v.table && DoAll(v, [Kill(id)] + more).Some?
    requires DoAll(Fire(w, running), expiry.ops) == DoAll(v, [Kill(id)] + more)
    requires Next(w, expiry).Some? && Exec(Next, Next(w, expiry).value, after).Some?
    ensures var n := Exec(Next, Next(w, expiry).value, after).value;
            id in v.past && id in n.past && n.past[id].fired == v.past[id].fired && id !in n.table
  {
    var k := DoOp(v, Kill(id)).value;
    assert ([Kill(id)] + more)[1..] == more;
    OpKeeps(v, Kill(id), Some(running));
    OpsKeepKilled(k, more, Some(running), id, v.past[id].fired);
    StepKeeps(w, expiry);
    KilledForGood(Next(w, expiry).value, id, v.past[id].fired, after);
  }

  // ---------------------------------------------------------------------------
  // A timer left to itself
  // ---------------------------------------------------------------------------

  /** A timer set under id, and then n expiries of it whose callback calls nothing. */
  function SetAndExpire(id: TimerID, repeat: nat, n: nat): seq<Action> {
    if n == 0 then [Do(Add(id, repeat))] else SetAndExpire(id, repeat, n - 1) + [Expiry(id, [])]
  }

  /** Every count from 1 on can be set. The timer then fires at each expiry until it has fired
      that often, and is gone; with the endless count it fires for ever. */
  lemma {:induction false} FiresAsSet(id: TimerID, repeat: nat, n: nat)
    requires 1 <= repeat <= INFINITE
    ensures var fired := if repeat != INFINITE && n > repeat then repeat else n;
            Exec(Next, INIT, SetAndExpire(id, repeat, n)) ==
            Some(World(if repeat == INFINITE then map[id := INFINITE]
                       else if n < repeat then map[id := repeat - n]
                       else map[],
                       map[id := History(repeat, fired, 0, false)]))
    decreases n
  {
    if n == 0 {
      RunOfOne(Next, INIT, Do(Add(id, repeat)));
    } else {
      FiresAsSet(id, repeat, n - 1);
      RunThenStep(Next, INIT, SetAndExpire(id, repeat, n - 1), Expiry(id, []));
      if repeat == INFINITE || n - 1 < repeat {
        FiresOnce(id, if repeat == INFINITE then INFINITE else repeat - (n - 1), History(repeat, n - 1, 0, false));
      }
    }
  }

  lemma FiresOnce(id: TimerID, count: nat, h: History)
    requires 1 <= count <= INFINITE
    ensures Next(World(map[id := count], map[id := h]), Expiry(id, [])) ==
            Some(World(if count == INFINITE then map[id := INFINITE] else if count == 1 then map[] else map[id := count - 1],
                       map[id := h.(fired := h.fired + 1)]))
  {
    var w := World(map[id := count], map[id := h]);
    assert Fire(w, id).table == map[id := CountDown(count)];
    assert Fire(w, id).past == map[id := h.(fired := h.fired + 1)];
    assert map[id := 0] - {id} == map[];
  }
}
