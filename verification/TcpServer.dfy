/** The connection accounting of include/libhv_evpp/TcpServer.h: an acceptor counts each new
    connection on the worker loop it hands it to; that loop checks the limit, and, in a later
    step, registers the channel; a closing channel is first counted down and then removed. */
module TcpServer {
  import opened Options
  import opened Runs
  import opened Sizes
  import opened Words

  type Conn = nat
  type Loop = nat

  // ---------------------------------------------------------------------------
  // Runs
  // ---------------------------------------------------------------------------

  /** Where a connection is in its life, on the loop it was given to. */
  datatype Phase =
    | Counted(l: Loop)   // counted by the acceptor
    | Queued(l: Loop)    // waiting in the loop's queue
    | Checked(l: Loop)   // the limit has been checked, the channel not yet added
    | Live(l: Loop)      // registered
    | Closing(l: Loop)   // counted down, the channel not yet removed
    | Rejected(l: Loop)  // over the limit: closed without being counted down
    | Closed(l: Loop)

  datatype World = World(
    max: nat,
    nums: seq<nat>,            // connectionNum of each loop
    channels: map<Conn, Loop>,
    phase: map<Conn, Phase>,   // every connection ever accepted
    busy: map<Loop, Conn>,     // loops inside newConnEvent or the close callback
    underflow: bool)           // a counter was counted down from 0

  function Init(loops: nat, max: nat): World {
    World(max, seq(loops, _ => 0), map[], map[], map[], false)
  }

  datatype Action =
    | Accept(c: Conn, l: Loop)
    | Queue(c: Conn)
    | Check(c: Conn)
    | Add(c: Conn)
    | Close(c: Conn)
    | Remove(c: Conn)

  function Next(w: World, a: Action): Option<World> {
    match a
    case Accept(c, l) =>
      if c in w.phase || l >= |w.nums| then None
      else Some(w.(nums := w.nums[l := CountUp(w.nums[l])], phase := w.phase[c := Counted(l)]))
    case Queue(c) =>
      if c in w.phase && w.phase[c].Counted? then Some(w.(phase := w.phase[c := Queued(w.phase[c].l)])) else None
    case Check(c) =>
      if c !in w.phase || !w.phase[c].Queued? || w.phase[c].l in w.busy then None
      else
        var l := w.phase[c].l;
        if |w.channels| >= w.max then Some(w.(phase := w.phase[c := Rejected(l)]))
        else Some(w.(phase := w.phase[c := Checked(l)], busy := w.busy[l := c]))
    case Add(c) =>
      if c !in w.phase || !w.phase[c].Checked? then None
      else
        var l := w.phase[c].l;
        Some(w.(channels := w.channels[c := l], phase := w.phase[c := Live(l)], busy := w.busy - {l}))
    case Close(c) =>
      if c !in w.phase || !w.phase[c].Live? || w.phase[c].l in w.busy || w.phase[c].l >= |w.nums| then None
      else
        var l := w.phase[c].l;
        Some(w.(nums := w.nums[l := CountDown(w.nums[l])], underflow := w.underflow || w.nums[l] == 0,
                phase := w.phase[c := Closing(l)], busy := w.busy[l := c]))
    case Remove(c) =>
      if c !in w.phase || !w.phase[c].Closing? then None
      else
        var l := w.phase[c].l;
        Some(w.(channels := w.channels - {c}, phase := w.phase[c := Closed(l)], busy := w.busy - {l}))
  }

  // ---------------------------------------------------------------------------
  // The server
  // ---------------------------------------------------------------------------

  /** The state shared by the threads of the server. Each of its three callbacks is, when no
      other thread comes in between, the machine's steps of that callback one after another. */
  class Server {
    var channels: map<Conn, Loop>
    const connectionNum: array<nat>
    const maxConnections: nat

    /** The shared part of a state of the machine. */
    ghost predicate Is(w: World)
      reads this, connectionNum
    {
      w.channels == channels && w.nums == connectionNum[..] && w.max == maxConnections
    }

    constructor (loops: nat, max: nat)
      ensures Is(Init(loops, max)) && fresh(connectionNum)
    {
      channels, maxConnections := map[], max;
      connectionNum := new nat[loops](_ => 0);
    }

    /** onAccept, once the loop has been chosen. */
    method OnAccept(l: Loop)
      requires l < connectionNum.Length
      modifies connectionNum
      ensures forall w: World, c: Conn :: old(Is(w)) && c !in w.phase ==>
                Next(w, Accept(c, l)).Some? && Is(Next(w, Accept(c, l)).value)
    {
      connectionNum[l] := (connectionNum[l] + 1) % WORD;
    }

    /** newConnEvent on loop l, to which the connection belongs. */
    method NewConnEvent(c: Conn, l: Loop) returns (accepted: bool)
      modifies this`channels
      ensures forall w: World :: old(Is(w)) && c in w.phase && w.phase[c] == Queued(l) && l !in w.busy ==>
                var run := Exec(Next, w, if accepted then [Check(c), Add(c)] else [Check(c)]);
                && run.Some? && Is(run.value)
                && run.value.phase == w.phase[c := if accepted then Live(l) else Rejected(l)]
                && run.value.busy == w.busy
    {
      if |channels| >= maxConnections {
        forall w: World | old(Is(w)) && c in w.phase && w.phase[c] == Queued(l) && l !in w.busy
          ensures Exec(Next, w, [Check(c)]) == Some(w.(phase := w.phase[c := Rejected(l)]))
        {
          RunOfOne(Next, w, Check(c));
        }
        return false;
      }
      channels := channels[c := l];
      accepted := true;
      forall w: World | old(Is(w)) && c in w.phase && w.phase[c] == Queued(l) && l !in w.busy
        ensures Exec(Next, w, [Check(c), Add(c)]) == Some(w.(phase := w.phase[c := Live(l)], channels := channels))
      {
        Registration(w, c, l);
      }
    }

    /** The close callback of a registered channel. */
    method OnClose(c: Conn, l: Loop)
      requires l < connectionNum.Length
      modifies this`channels, connectionNum
      ensures forall w: World :: old(Is(w)) && c in w.phase && w.phase[c] == Live(l) && l !in w.busy ==>
                var run := Exec(Next, w, [Close(c), Remove(c)]);
                && run.Some? && Is(run.value)
                && run.value.phase == w.phase[c := Closed(l)] && run.value.busy == w.busy
    {
      connectionNum[l] := if connectionNum[l] == 0 then WORD - 1 else connectionNum[l] - 1;
      channels := channels - {c};
      forall w: World | old(Is(w)) && c in w.phase && w.phase[c] == Live(l) && l !in w.busy
        ensures Exec(Next, w, [Close(c), Remove(c)]) ==
                Some(w.(phase := w.phase[c := Closed(l)], channels := channels, nums := connectionNum[..],
                        underflow := w.underflow || w.nums[l] == 0))
      {
        Removal(w, c, l);
      }
    }
  }

  lemma Registration(w: World, c: Conn, l: Loop)
    requires c in w.phase && w.phase[c] == Queued(l) && l !in w.busy && |w.channels| < w.max
    ensures Exec(Next, w, [Check(c), Add(c)]) ==
            Some(w.(phase := w.phase[c := Live(l)], channels := w.channels[c := l]))
  {
    RunOfTwo(Next, w, Check(c), Add(c));
    assert w.phase[c := Checked(l)][c := Live(l)] == w.phase[c := Live(l)];
    assert w.busy[l := c] - {l} == w.busy;
  }

  lemma Removal(w: World, c: Conn, l: Loop)
    requires c in w.phase && w.phase[c] == Live(l) && l !in w.busy && l < |w.nums|
    ensures Exec(Next, w, [Close(c), Remove(c)]) ==
            Some(w.(phase := w.phase[c := Closed(l)], channels := w.channels - {c},
                    nums := w.nums[l := CountDown(w.nums[l])], underflow := w.underflow || w.nums[l] == 0))
  {
    RunOfTwo(Next, w, Close(c), Remove(c));
    assert w.phase[c := Closing(l)][c := Closed(l)] == w.phase[c := Closed(l)];
    assert w.busy[l := c] - {l} == w.busy;
  }

  // ---------------------------------------------------------------------------
  // What every run keeps
  // ---------------------------------------------------------------------------

  predicate IsCounted(p: Phase, l: Loop) {
    p.l == l && !p.Closing? && !p.Closed?
  }

  /** The connections that loop l's counter stands for. */
  function Ledger(phase: map<Conn, Phase>, l: Loop): set<Conn> {
    set c | c in phase && IsCounted(phase[c], l)
  }

  /** The loops between their check of the limit and the registration. */
  function Between(w: World): set<Loop> {
    set l | l in w.busy && w.busy[l] in w.phase && w.phase[w.busy[l]].Checked?
  }

  /** Which connections the shared maps hold. */
  ghost predicate Shape(w: World) {
    && |w.nums| >= 1
    && (forall c :: c in w.phase ==> w.phase[c].l < |w.nums|)
    && (forall l :: l in w.busy ==>
          w.busy[l] in w.phase && (w.phase[w.busy[l]] == Checked(l) || w.phase[w.busy[l]] == Closing(l)))
    && (forall c :: c in w.phase && (w.phase[c].Checked? || w.phase[c].Closing?) ==>
          w.phase[c].l in w.busy && w.busy[w.phase[c].l] == c)
    && (forall c :: c in w.channels <==> c in w.phase && (w.phase[c].Live? || w.phase[c].Closing?))
  }

  ghost predicate WithinLimit(w: World) {
    |w.channels| + |Between(w)| <= w.max + |w.nums| - 1
  }

  ghost predicate BooksBalance(w: World) {
    && (forall l :: 0 <= l < |w.nums| ==> w.nums[l] == |Ledger(w.phase, l)| % WORD)
    && (|w.phase| < WORD ==> !w.underflow)
  }

  ghost predicate Inv(w: World) { Shape(w) && WithinLimit(w) && BooksBalance(w) }

  predicate Busy(p: Phase) { p.Checked? || p.Closing? }
  predicate Registered(p: Phase) { p.Live? || p.Closing? }

  /** One connection moves on, on its own loop. */
  lemma ShapeMoved(w: World, v: World, c: Conn)
    requires Shape(w) && |v.nums| == |w.nums|
    requires c in w.phase && c in v.phase && v.phase == w.phase[c := v.phase[c]]
    requires v.phase[c].l == w.phase[c].l
    requires Busy(w.phase[c]) ==> !Busy(v.phase[c])
    requires Busy(v.phase[c]) ==> w.phase[c].l !in w.busy
    requires v.busy == if Busy(w.phase[c]) then w.busy - {w.phase[c].l}
                       else if Busy(v.phase[c]) then w.busy[w.phase[c].l := c]
                       else w.busy
    requires forall k :: k in v.channels <==> if k == c then Registered(v.phase[c]) else k in w.channels
    ensures Shape(v)
  {
    forall k | k in v.phase && Busy(v.phase[k]) ensures v.phase[k].l in v.busy && v.busy[v.phase[k].l] == k {
      assert k != c ==> w.phase[k].l in w.busy && w.busy[w.phase[k].l] == k;
    }
  }

  lemma ShapeKept(w: World, a: Action)
    requires Shape(w) && Next(w, a).Some?
    ensures Shape(Next(w, a).value)
  {
    if !a.Accept? {
      StepMoves(w, a);
      ShapeMoved(w, Next(w, a).value, a.c);
    }
  }

  /** Every step but an accept moves one connection on its own loop. */
  lemma StepMoves(w: World, a: Action)
    requires Shape(w) && Next(w, a).Some? && !a.Accept?
    ensures a.c in w.phase
    ensures var v, c := Next(w, a).value, a.c;
            && |v.nums| == |w.nums|
            && c in v.phase && v.phase == w.phase[c := v.phase[c]] && v.phase[c].l == w.phase[c].l
            && (Busy(w.phase[c]) ==> !Busy(v.phase[c]))
            && (Busy(v.phase[c]) ==> w.phase[c].l !in w.busy)
            && v.busy == (if Busy(w.phase[c]) then w.busy - {w.phase[c].l}
                          else if Busy(v.phase[c]) then w.busy[w.phase[c].l := c]
                          else w.busy)
            && forall k :: k in v.channels <==> if k == c then Registered(v.phase[c]) else k in w.channels
  {
  }

  lemma BetweenSame(w: World, a: Action)
    requires Shape(w) && Next(w, a).Some?
    requires a.Check? ==> |w.channels| >= w.max
    requires !a.Add?
    ensures Between(Next(w, a).value) == Between(w)
  {
    var v := Next(w, a).value;
    forall l | l in w.busy ensures l in Between(v) <==> l in Between(w) {}
  }

  /** Passing the check: below the limit before, and at most every loop is in between after. */
  lemma CheckWithinLimit(w: World, c: Conn)
    requires Shape(w) && |w.channels| < w.max && Next(w, Check(c)).Some?
    ensures WithinLimit(Next(w, Check(c)).value)
  {
    var v := Next(w, Check(c)).value;
    ShapeKept(w, Check(c));
    forall l | l in Between(v) ensures l < |w.nums| { assert v.phase[v.busy[l]].l == l; }
    AtMost(Between(v), |w.nums|);
  }

  lemma AddBetween(w: World, c: Conn)
    requires Shape(w) && Next(w, Add(c)).Some?
    ensures var l := w.phase[c].l;
            l in Between(w) && Between(Next(w, Add(c)).value) == Between(w) - {l}
  {
    var v := Next(w, Add(c)).value;
    var l := w.phase[c].l;
    forall k | k in w.busy && k != l ensures k in Between(v) <==> k in Between(w) {
      assert w.busy[k] != c;
    }
  }

  lemma AddWithinLimit(w: World, c: Conn)
    requires Shape(w) && WithinLimit(w) && Next(w, Add(c)).Some?
    ensures WithinLimit(Next(w, Add(c)).value)
  {
    AddBetween(w, c);
    var after := w.channels[c := w.phase[c].l];
    assert after.Keys == w.channels.Keys + {c};
    MapSize(w.channels);
    MapSize(after);
  }

  lemma LimitKept(w: World, a: Action)
    requires Shape(w) && WithinLimit(w) && Next(w, a).Some?
    ensures WithinLimit(Next(w, a).value)
  {
    if a.Check? && |w.channels| < w.max {
      CheckWithinLimit(w, a.c);
    } else if a.Add? {
      AddWithinLimit(w, a.c);
    } else {
      BetweenSame(w, a);
      FewerChannels(w, a);
    }
  }

  lemma FewerChannels(w: World, a: Action)
    requires Next(w, a).Some? && !a.Add?
    ensures |Next(w, a).value.channels| <= |w.channels| && |Next(w, a).value.nums| == |w.nums|
    ensures Next(w, a).value.max == w.max
  {
    if a.Remove? {
      RemoveSize(w.channels, a.c);
    }
  }

  lemma RemoveSize(m: map<Conn, Loop>, c: Conn)
    ensures |m - {c}| <= |m|
  {
    MapSize(m);
    MapSize(m - {c});
    SubsetSize((m - {c}).Keys, m.Keys);
  }

  /** A loop's ledger does not change when a connection that is not in it moves to a place
      outside it, or one that is in it stays. */
  lemma LedgerSame(phase: map<Conn, Phase>, c: Conn, p: Phase, l: Loop)
    requires (c in phase && IsCounted(phase[c], l)) == IsCounted(p, l)
    ensures Ledger(phase[c := p], l) == Ledger(phase, l)
  {
  }

  lemma LedgerGrows(phase: map<Conn, Phase>, c: Conn, p: Phase, l: Loop)
    requires c !in phase && IsCounted(p, l)
    ensures |Ledger(phase[c := p], l)| == |Ledger(phase, l)| + 1
  {
    assert Ledger(phase[c := p], l) == Ledger(phase, l) + {c};
  }

  lemma LedgerShrinks(phase: map<Conn, Phase>, c: Conn, p: Phase, l: Loop)
    requires c in phase && IsCounted(phase[c], l) && !IsCounted(p, l)
    ensures |Ledger(phase[c := p], l)| == |Ledger(phase, l)| - 1
  {
    assert Ledger(phase, l) == Ledger(phase[c := p], l) + {c};
  }

  lemma PhaseCount(phase: map<Conn, Phase>, c: Conn, p: Phase)
    ensures |phase[c := p]| == |phase| + if c in phase then 0 else 1
  {
    MapSize(phase);
    MapSize(phase[c := p]);
    assert phase[c := p].Keys == phase.Keys + {c};
    assert c in phase ==> phase.Keys + {c} == phase.Keys;
  }

  /** A move of c that leaves it on the same side of the books. */
  lemma SameBooks(w: World, v: World, c: Conn, p: Phase)
    requires c in w.phase && v.phase == w.phase[c := p] && p.l == w.phase[c].l
    requires IsCounted(w.phase[c], p.l) == IsCounted(p, p.l)
    requires v.nums == w.nums && v.underflow == w.underflow && BooksBalance(w)
    ensures BooksBalance(v)
  {
    forall l | 0 <= l < |v.nums| ensures v.nums[l] == |Ledger(v.phase, l)| % WORD {
      LedgerSame(w.phase, c, p, l);
    }
    PhaseCount(w.phase, c, p);
  }

  lemma AcceptBooks(w: World, v: World, c: Conn, k: Loop)
    requires BooksBalance(w) && c !in w.phase && k < |w.nums|
    requires v.phase == w.phase[c := Counted(k)] && v.nums == w.nums[k := CountUp(w.nums[k])]
    requires v.underflow == w.underflow
    ensures BooksBalance(v)
  {
    forall l | 0 <= l < |v.nums| ensures v.nums[l] == |Ledger(v.phase, l)| % WORD {
      if l == k {
        LedgerGrows(w.phase, c, Counted(k), l);
        ModOneMore(|Ledger(w.phase, l)|);
      } else {
        LedgerSame(w.phase, c, Counted(k), l);
      }
    }
    PhaseCount(w.phase, c, Counted(k));
  }

  lemma ModOneMore(n: nat)
    ensures (n + 1) % WORD == CountUp(n % WORD)
  {
  }

  lemma CloseBooks(w: World, v: World, c: Conn, k: Loop)
    requires BooksBalance(w) && c in w.phase && w.phase[c] == Live(k) && k < |w.nums|
    requires v.phase == w.phase[c := Closing(k)] && v.nums == w.nums[k := CountDown(w.nums[k])]
    requires v.underflow == (w.underflow || w.nums[k] == 0)
    ensures BooksBalance(v)
  {
    forall l | 0 <= l < |v.nums| ensures v.nums[l] == |Ledger(v.phase, l)| % WORD {
      if l == k {
        LedgerShrinks(w.phase, c, Closing(k), l);
        ModOneLess(|Ledger(w.phase, l)|);
      } else {
        LedgerSame(w.phase, c, Closing(k), l);
      }
    }
    PhaseCount(w.phase, c, Closing(k));
    LedgerShrinks(w.phase, c, Closing(k), k);
    SubsetSize(Ledger(w.phase, k), w.phase.Keys);
    MapSize(w.phase);
  }

  /** Counting down wraps with the count it stands for. */
  lemma ModOneLess(n: nat)
    requires n > 0
    ensures (n - 1) % WORD == CountDown(n % WORD)
  {
  }

  lemma BooksKept(w: World, a: Action)
    requires Shape(w) && BooksBalance(w) && Next(w, a).Some?
    ensures BooksBalance(Next(w, a).value)
  {
    if a.Accept? {
      AcceptBooks(w, Next(w, a).value, a.c, a.l);
    } else if a.Close? {
      CloseBooks(w, Next(w, a).value, a.c, w.phase[a.c].l);
    } else {
      MovedBooks(w, a);
    }
  }

  lemma MovedBooks(w: World, a: Action)
    requires BooksBalance(w) && Next(w, a).Some? && !a.Accept? && !a.Close?
    ensures BooksBalance(Next(w, a).value)
  {
    var v := Next(w, a).value;
    SameBooks(w, v, a.c, v.phase[a.c]);
  }

  lemma StepKeeps(w: World, a: Action)
    requires Inv(w) && Next(w, a).Some?
    ensures Inv(Next(w, a).value)
  {
    ShapeKept(w, a);
    LimitKept(w, a);
    BooksKept(w, a);
  }

  lemma StepKeepsSize(w: World, a: Action)
    requires Next(w, a).Some?
    ensures |Next(w, a).value.nums| == |w.nums| && Next(w, a).value.max == w.max
  {
  }

  lemma InitInv(loops: nat, max: nat)
    requires loops >= 1
    ensures Inv(Init(loops, max))
  {
    var i := Init(loops, max);
    assert Between(i) == {};
    forall l ensures Ledger(i.phase, l) == {} {}
  }

  lemma Reachable(loops: nat, max: nat, acts: seq<Action>)
    requires loops >= 1 && Exec(Next, Init(loops, max), acts).Some?
    ensures var w := Exec(Next, Init(loops, max), acts).value;
            Inv(w) && |w.nums| == loops && w.max == max
  {
    var inv := (w: World) => Inv(w) && |w.nums| == loops && w.max == max;
    forall w, a | inv(w) && Next(w, a).Some? ensures inv(Next(w, a).value) {
      StepKeeps(w, a);
      StepKeepsSize(w, a);
    }
    InitInv(loops, max);
    RunKeeps(Next, inv, Init(loops, max), acts);
  }

  /** In every run the registered channels are exactly those of connections that have been added
      and not yet removed, each on the loop that accepted it. */
  lemma RegisteredExactly(loops: nat, max: nat, acts: seq<Action>, c: Conn)
    requires loops >= 1 && Exec(Next, Init(loops, max), acts).Some?
    ensures var w := Exec(Next, Init(loops, max), acts).value;
            && (c in w.channels <==> c in w.phase && (w.phase[c].Live? || w.phase[c].Closing?))
            && (c in w.channels ==> w.channels[c] == w.phase[c].l < loops)
  {
    Reachable(loops, max, acts);
    forall w, a | OnOwnLoops(w) && Next(w, a).Some? ensures OnOwnLoops(Next(w, a).value) { StaysOnLoop(w, a); }
    RunKeeps(Next, OnOwnLoops, Init(loops, max), acts);
  }

  ghost predicate OnOwnLoops(w: World) {
    forall c :: c in w.channels ==> c in w.phase && w.channels[c] == w.phase[c].l
  }

  lemma StaysOnLoop(w: World, a: Action)
    requires OnOwnLoops(w) && Next(w, a).Some?
    ensures OnOwnLoops(Next(w, a).value)
  {
  }

  // ---------------------------------------------------------------------------
  // The limit
  // ---------------------------------------------------------------------------

  /** Registered channels and workers between check and registration never exceed the limit by
      the number of loops or more. With one loop the limit is therefore exact; with a limit of 0
      nothing is ever registered. */
  lemma LimitHolds(loops: nat, max: nat, acts: seq<Action>)
    requires loops >= 1 && Exec(Next, Init(loops, max), acts).Some?
    ensures var w := Exec(Next, Init(loops, max), acts).value;
            && |w.channels| + |Between(w)| <= max + loops - 1
            && (loops == 1 ==> |w.channels| <= max)
            && (max == 0 ==> w.channels == map[])
  {
    Reachable(loops, max, acts);
    if max == 0 {
      NothingRegistered(loops, acts);
    }
  }

  /** With a limit of 0 no connection passes the check. */
  ghost predicate NonePassed(w: World) {
    w.max == 0 && w.channels == map[] && forall c :: c in w.phase ==> !w.phase[c].Checked? && !w.phase[c].Live?
  }

  lemma NothingRegistered(loops: nat, acts: seq<Action>)
    requires Exec(Next, Init(loops, 0), acts).Some?
    ensures Exec(Next, Init(loops, 0), acts).value.channels == map[]
  {
    forall w, a | NonePassed(w) && Next(w, a).Some? ensures NonePassed(Next(w, a).value) {}
    RunKeeps(Next, NonePassed, Init(loops, 0), acts);
  }

  // The bound is met: fill up to one below the limit, let every loop check, then register all.

  ghost predicate Ready(w: World, loops: nat, max: nat, k: nat) {
    && w.max == max && |w.nums| == loops && |w.channels| == k && w.busy == map[]
    && (forall c :: c in w.phase ==> c < k) && (forall c :: c in w.channels ==> c < k)
  }

  lemma Step(loops: nat, max: nat, acts: seq<Action>, w: World, a: Action, v: World)
    requires Exec(Next, Init(loops, max), acts) == Some(w) && Next(w, a) == Some(v)
    ensures Exec(Next, Init(loops, max), acts + [a]) == Some(v)
  {
    RunThenStep(Next, Init(loops, max), acts, a);
  }

  /** Accept, queue and check one connection on loop l, below the limit. */
  lemma LetCheck(loops: nat, max: nat, acts: seq<Action>, w: World, c: Conn, l: Loop) returns (more: seq<Action>, v: World)
    requires Exec(Next, Init(loops, max), acts) == Some(w)
    requires c !in w.phase && l < |w.nums| && l !in w.busy && |w.channels| < w.max
    ensures Exec(Next, Init(loops, max), more) == Some(v)
    ensures v.max == w.max && |v.nums| == |w.nums| && v.channels == w.channels
    ensures v.phase == w.phase[c := Checked(l)] && v.busy == w.busy[l := c]
  {
    var w1 := w.(nums := w.nums[l := CountUp(w.nums[l])], phase := w.phase[c := Counted(l)]);
    var w2 := w1.(phase := w1.phase[c := Queued(l)]);
    v := w2.(phase := w2.phase[c := Checked(l)], busy := w.busy[l := c]);
    Step(loops, max, acts, w, Accept(c, l), w1);
    Step(loops, max, acts + [Accept(c, l)], w1, Queue(c), w2);
    Step(loops, max, acts + [Accept(c, l)] + [Queue(c)], w2, Check(c), v);
    more := acts + [Accept(c, l)] + [Queue(c)] + [Check(c)];
    assert w2.phase == w.phase[c := Queued(l)];
    assert v.phase == w.phase[c := Checked(l)];
  }

  lemma Register(loops: nat, max: nat, acts: seq<Action>, w: World, c: Conn) returns (more: seq<Action>, v: World)
    requires Exec(Next, Init(loops, max), acts) == Some(w)
    requires c in w.phase && w.phase[c].Checked? && c !in w.channels
    ensures Exec(Next, Init(loops, max), more) == Some(v)
    ensures v == w.(channels := w.channels[c := w.phase[c].l], phase := w.phase[c := Live(w.phase[c].l)],
                    busy := w.busy - {w.phase[c].l})
    ensures |v.channels| == |w.channels| + 1
  {
    v := Next(w, Add(c)).value;
    Step(loops, max, acts, w, Add(c), v);
    more := acts + [Add(c)];
    assert v.channels.Keys == w.channels.Keys + {c};
    assert |v.channels| == |v.channels.Keys| && |w.channels| == |w.channels.Keys|;
  }

  lemma {:induction false} Fill(loops: nat, max: nat, k: nat) returns (acts: seq<Action>, w: World)
    requires loops >= 1 && k < max
    ensures Exec(Next, Init(loops, max), acts) == Some(w) && Ready(w, loops, max, k)
    decreases k
  {
    if k == 0 {
      acts, w := [], Init(loops, max);
    } else {
      acts, w := Fill(loops, max, k - 1);
      acts, w := LetCheck(loops, max, acts, w, k - 1, 0);
      acts, w := Register(loops, max, acts, w, k - 1);
      assert w.busy == map[];
    }
  }

  /** Loops 0..n-1 have checked, for the connections from base on; registered < n of them. */
  ghost predicate Racing(w: World, loops: nat, base: nat, n: nat, registered: nat) {
    && w.max == base + 1 && |w.nums| == loops && |w.channels| == base + registered
    && (forall l :: l in w.busy ==> l < n)
    && (forall c :: c in w.channels ==> c < base + registered)
    && (forall c :: c in w.phase ==> c < base + n)
    && (forall c :: base + registered <= c < base + n ==> c in w.phase && w.phase[c] == Checked(c - base))
  }

  lemma OneMoreRacing(w: World, v: World, loops: nat, base: nat, n: nat)
    requires Racing(w, loops, base, n, 0)
    requires v.max == w.max && |v.nums| == |w.nums| && v.channels == w.channels
    requires v.phase == w.phase[base + n := Checked(n)] && v.busy == w.busy[n := base + n]
    ensures Racing(v, loops, base, n + 1, 0)
  {
    forall c | base <= c < base + n + 1 ensures c in v.phase && v.phase[c] == Checked(c - base) {
      assert c < base + n ==> c in w.phase && w.phase[c] == Checked(c - base);
    }
  }

  lemma OneMoreChecks(loops: nat, base: nat, n: nat, acts: seq<Action>, w: World) returns (more: seq<Action>, v: World)
    requires n < loops && Exec(Next, Init(loops, base + 1), acts) == Some(w) && Racing(w, loops, base, n, 0)
    ensures Exec(Next, Init(loops, base + 1), more) == Some(v) && Racing(v, loops, base, n + 1, 0)
  {
    more, v := LetCheck(loops, base + 1, acts, w, base + n, n);
    OneMoreRacing(w, v, loops, base, n);
  }

  lemma {:induction false} LetAllCheck(loops: nat, base: nat, n: nat) returns (acts: seq<Action>, w: World)
    requires 1 <= loops && n <= loops
    ensures Exec(Next, Init(loops, base + 1), acts) == Some(w) && Racing(w, loops, base, n, 0)
    decreases n
  {
    if n == 0 {
      acts, w := Fill(loops, base + 1, base);
    } else {
      acts, w := LetAllCheck(loops, base, n - 1);
      acts, w := OneMoreChecks(loops, base, n - 1, acts, w);
    }
  }

  lemma {:induction false} RegisterAll(loops: nat, base: nat, n: nat) returns (acts: seq<Action>, w: World)
    requires 1 <= loops && n <= loops
    ensures Exec(Next, Init(loops, base + 1), acts) == Some(w) && Racing(w, loops, base, loops, n)
    decreases n
  {
    if n == 0 {
      acts, w := LetAllCheck(loops, base, loops);
    } else {
      acts, w := RegisterAll(loops, base, n - 1);
      var c := base + (n - 1);
      assert c in w.phase && w.phase[c] == Checked(n - 1);
      acts, w := Register(loops, base + 1, acts, w, c);
    }
  }

  /** Some run registers max + loops - 1 channels at once: the bound cannot be improved. */
  lemma LimitIsReached(loops: nat, max: nat) returns (acts: seq<Action>)
    requires loops >= 1 && max >= 1
    ensures Exec(Next, Init(loops, max), acts).Some?
    ensures |Exec(Next, Init(loops, max), acts).value.channels| == max + loops - 1
  {
    var w;
    acts, w := RegisterAll(loops, max - 1, loops);
  }

  /** So the limit is one that no run exceeds exactly with one loop, or when it is 0. */
  lemma WhenLimitIsExact(loops: nat, max: nat)
    requires loops >= 1
    ensures (forall acts :: Exec(Next, Init(loops, max), acts).Some? ==>
                              |Exec(Next, Init(loops, max), acts).value.channels| <= max) <==>
            loops == 1 || max == 0
  {
    if loops == 1 || max == 0 {
      forall acts | Exec(Next, Init(loops, max), acts).Some?
        ensures |Exec(Next, Init(loops, max), acts).value.channels| <= max
      {
        LimitHolds(loops, max, acts);
      }
    } else {
      var acts := LimitIsReached(loops, max);
    }
  }

  // ---------------------------------------------------------------------------
  // The counters
  // ---------------------------------------------------------------------------

  function Waiting(w: World, l: Loop): set<Conn> {
    set c | c in w.phase && (w.phase[c] == Counted(l) || w.phase[c] == Queued(l))
  }
  function InCheck(w: World, l: Loop): set<Conn> { set c | c in w.phase && w.phase[c] == Checked(l) }
  function AliveOn(w: World, l: Loop): set<Conn> { set c | c in w.phase && w.phase[c] == Live(l) }
  function RejectedBy(w: World, l: Loop): set<Conn> { set c | c in w.phase && w.phase[c] == Rejected(l) }

  lemma FourParts<T>(all: set<T>, a: set<T>, b: set<T>, c: set<T>, d: set<T>)
    requires all == a + b + c + d
    requires a !! b !! c !! d
    ensures |all| == |a| + |b| + |c| + |d|
  {
    assert |a + b| == |a| + |b|;
    assert |a + b + c| == |a + b| + |c|;
  }

  lemma LedgerParts(w: World, l: Loop)
    ensures |Ledger(w.phase, l)| == |Waiting(w, l)| + |InCheck(w, l)| + |AliveOn(w, l)| + |RejectedBy(w, l)|
  {
    var a, b, c, d := Waiting(w, l), InCheck(w, l), AliveOn(w, l), RejectedBy(w, l);
    assert Ledger(w.phase, l) == a + b + c + d by {
      forall x ensures x in Ledger(w.phase, l) <==> x in a || x in b || x in c || x in d {}
    }
    assert a !! b;
    assert (a + b) !! c;
    assert (a + b + c) !! d;
    FourParts(Ledger(w.phase, l), a, b, c, d);
  }

  /** In every run the counter of a loop is the number of its connections not yet checked, being
      registered, live, or ever rejected (modulo 2^32), and while fewer than 2^32 connections
      have been accepted no close counts down from 0. */
  lemma CounterConservation(loops: nat, max: nat, acts: seq<Action>, l: Loop)
    requires l < loops && Exec(Next, Init(loops, max), acts).Some?
    ensures var w := Exec(Next, Init(loops, max), acts).value;
            && |w.nums| == loops
            && w.nums[l] == (|Waiting(w, l)| + |InCheck(w, l)| + |AliveOn(w, l)| + |RejectedBy(w, l)|) % WORD
            && (|w.phase| < WORD ==> !w.underflow)
  {
    Reachable(loops, max, acts);
    LedgerParts(Exec(Next, Init(loops, max), acts).value, l);
  }

  /** A rejected connection is never counted down: a loop whose connections are all gone is back
      at 0 exactly when it never rejected one. */
  lemma RejectionsAreNeverRepaid(loops: nat, max: nat, acts: seq<Action>, l: Loop)
    requires l < loops && Exec(Next, Init(loops, max), acts).Some?
    requires var w := Exec(Next, Init(loops, max), acts).value;
             |w.phase| < WORD && Waiting(w, l) == InCheck(w, l) == AliveOn(w, l) == {}
    ensures var w := Exec(Next, Init(loops, max), acts).value;
            |w.nums| == loops && (w.nums[l] == 0 <==> RejectedBy(w, l) == {})
  {
    CounterConservation(loops, max, acts, l);
    var w := Exec(Next, Init(loops, max), acts).value;
    SubsetSize(RejectedBy(w, l), w.phase.Keys);
    assert |w.phase.Keys| == |w.phase|;
  }
}
