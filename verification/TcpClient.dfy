/** The client's connection state (include/libhv_evpp/TcpClient.h, Channel.h) and the commands
    that drive it (src/adb_command.cpp, src/host_command.cpp): every command calls startConnect
    directly and schedules a second call, which takes effect on the loop thread at any later
    time. Creating a socket may fail; a closing connection runs its close callback in the same
    step. Reconnection is off. */
module TcpClient {
  import opened Options
  import opened Runs
  import opened Protocol

  datatype ChannelStatus = Opened | Connecting | Connected | Disconnected | Closed

  function Rank(s: ChannelStatus): nat {
    match s
    case Opened => 0
    case Connecting => 1
    case Connected => 2
    case Disconnected => 3
    case Closed => 4
  }

  /** A channel: its status, whether its C handle is open, what has been written to it, and how
      often its closing has woken the waiting command. */
  datatype Chan = Chan(status: ChannelStatus, ioOpen: bool, requests: seq<string>, wakes: nat)

  /** What createsocket makes. */
  const FRESH := Chan(Opened, true, [], 0)

  predicate IsOpened(c: Chan) { Rank(c.status) < Rank(Disconnected) && c.ioOpen }

  predicate IsConnected(c: Chan) { c.status == Connected && IsOpened(c) }

  /** Whether startConnect needs a new socket; the current channel is the last one made. */
  predicate NoneOpen(cs: seq<Chan>) { cs == [] || !IsOpened(cs[|cs| - 1]) }

  /** TcpClientEventLoopTmpl::startConnect: all channels after it. `made` says whether a socket
      can be created. */
  function AfterStartConnect(cs: seq<Chan>, made: bool): seq<Chan> {
    if NoneOpen(cs) && !made then cs
    else
      var open := if NoneOpen(cs) then cs + [FRESH] else cs;
      var last := |open| - 1;
      if Rank(open[last].status) >= Rank(Connecting) then open
      else open[last := open[last].(status := Connecting)]
  }

  /** on_connect with the connection callback of a command. */
  function ConnectDone(c: Chan, command: string): Chan {
    var d := c.(status := Connected);
    if IsConnected(d) then d.(requests := d.requests + [Frame(command)]) else d.(wakes := d.wakes + 1)
  }

  /** hio_close, on_close and the connection callback. */
  function CloseDone(c: Chan): Chan {
    c.(status := Closed, ioOpen := false, wakes := c.wakes + 1)
  }

  class Channel {
    var status: ChannelStatus
    var ioOpen: bool
    var requests: seq<string>
    var wakes: nat

    function State(): Chan
      reads this
    {
      Chan(status, ioOpen, requests, wakes)
    }

    constructor ()
      ensures State() == FRESH
    {
      status, ioOpen, requests, wakes := Opened, true, [], 0;
    }

    method OnConnect(command: string)
      modifies this
      ensures State() == ConnectDone(old(State()), command)
    {
      status := Connected;
      if status == Connected && Rank(status) < Rank(Disconnected) && ioOpen {
        var str := Hex(|command|, 4);
        str := str + command;
        requests := requests + [str];
      } else {
        wakes := wakes + 1;
      }
    }

    method OnClose()
      modifies this
      ensures State() == CloseDone(old(State()))
    {
      ioOpen := false;
      status := Closed;
      wakes := wakes + 1;
    }
  }

  class Client {
    var channel: Channel?

    constructor ()
      ensures channel == null
    {
      channel := null;
    }

    /** The current channel, if any, as a value. */
    function Current(): seq<Chan>
      reads this, channel
    {
      if channel == null then [] else [channel.State()]
    }

    /** `connfd` is what creating a socket would give, an error when it is negative. */
    method StartConnect(connfd: int) returns (ret: int)
      modifies this, channel
      ensures Current() == CurrentAfter(old(Current()), connfd >= 0)
      ensures channel == old(channel) <==> old(channel != null && IsOpened(channel.State())) || connfd < 0
      ensures channel != old(channel) ==> fresh(channel)
      ensures ret == if old(NoneOpen(Current())) then (if connfd < 0 then connfd else 0)
                     else if old(Rank(Current()[0].status)) >= Rank(Connecting) then -1 else 0
    {
      if channel == null || !IsOpened(channel.State()) {
        if connfd < 0 {
          return connfd;
        }
        channel := new Channel();
      }
      if Rank(channel.status) >= Rank(Connecting) {
        return -1;
      }
      channel.status := Connecting;
      ret := 0;
    }
  }

  /** What the machine's step leaves as the current channel. */
  function CurrentAfter(current: seq<Chan>, made: bool): seq<Chan> {
    var cs := AfterStartConnect(current, made);
    if cs == [] then [] else [cs[|cs| - 1]]
  }

  /** What isOpened means, status by status. */
  lemma OpenedExactly(c: Chan)
    ensures IsOpened(c) <==> c.status !in {Disconnected, Closed} && c.ioOpen
    ensures IsConnected(c) <==> c.status == Connected && c.ioOpen
  {
  }

  /** A connect event of a channel whose C handle is gone writes nothing and wakes the waiting
      command; of any other it writes one request and wakes nobody. */
  lemma ConnectExactly(c: Chan, command: string)
    ensures ConnectDone(c, command) ==
            if c.ioOpen then Chan(Connected, true, c.requests + [Frame(command)], c.wakes)
            else Chan(Connected, false, c.requests, c.wakes + 1)
  {
  }

  // ---------------------------------------------------------------------------
  // Runs
  // ---------------------------------------------------------------------------

  /** The thread that issues commands: between commands, about to connect directly, about to
      schedule the second call, waiting. */
  datatype Caller = Idle | Direct | Schedule | Waiting

  datatype World = World(
    channels: seq<Chan>,     // all channels made; the last one is current
    caller: Caller,
    commands: seq<string>,   // history: m_command of each command begun; the last one is current
    flag: int,               // m_command_finished
    scheduled: nat,          // second calls that have not taken effect
    seconds: nat,            // history: second calls that have
    wakeUps: nat,            // history: calls of weak_up
    late: bool,              // history: a second call has found the channel closed
    failed: nat)             // history: calls of startConnect that got no socket

  /** The user has created the socket, as the repository's own programs do. */
  const INIT := World([FRESH], Idle, [], 0, 0, 0, 0, false, 0)

  datatype Action =
    | Begin(command: string)
    | ConnectDirectly(made: bool)
    | ScheduleSecond
    | SecondTakesEffect(made: bool)
    | Return
    | ConnectEvent
    | CloseEvent             // also a connection that fails

  function Last(w: World): Chan
    requires w.channels != []
  {
    w.channels[|w.channels| - 1]
  }

  function Connect(w: World, made: bool): World {
    w.(channels := AfterStartConnect(w.channels, made),
       failed := if NoneOpen(w.channels) && !made then w.failed + 1 else w.failed)
  }

  function Next(w: World, a: Action): Option<World> {
    match a
    case Begin(cmd) =>
      if !w.caller.Idle? then None else Some(w.(commands := w.commands + [cmd], flag := 0, caller := Direct))
    case ConnectDirectly(made) => if !w.caller.Direct? then None else Some(Connect(w, made).(caller := Schedule))
    case ScheduleSecond =>
      if !w.caller.Schedule? then None else Some(w.(scheduled := w.scheduled + 1, caller := Waiting))
    case SecondTakesEffect(made) =>
      if w.scheduled == 0 then None
      else Some(Connect(w, made).(scheduled := w.scheduled - 1, seconds := w.seconds + 1, late := w.late || NoneOpen(w.channels)))
    case Return => if w.caller.Waiting? && w.flag == 1 then Some(w.(caller := Idle)) else None
    case ConnectEvent =>
      if w.channels == [] || !IsOpened(Last(w)) || !Last(w).status.Connecting? || w.commands == [] then None
      else
        var c := ConnectDone(Last(w), w.commands[|w.commands| - 1]);
        Some(w.(channels := w.channels[|w.channels| - 1 := c]))
    case CloseEvent =>
      if w.channels == [] || !IsOpened(Last(w)) || Rank(Last(w).status) < Rank(Connecting) then None
      else
        Some(w.(channels := w.channels[|w.channels| - 1 := CloseDone(Last(w))], wakeUps := w.wakeUps + 1, flag := 1))
  }

  predicate Finished(c: Chan) {
    c.status.Closed? && !c.ioOpen && c.wakes == 1 && |c.requests| <= 1
  }

  predicate Ongoing(c: Chan) {
    c.ioOpen && c.wakes == 0 && !c.status.Closed? && !c.status.Disconnected? &&
    |c.requests| == if c.status.Connected? then 1 else 0
  }

  ghost predicate Inv(w: World) {
    && w.channels != []
    && (forall i :: 0 <= i < |w.channels| - 1 ==> Finished(w.channels[i]))
    && (Finished(Last(w)) || Ongoing(Last(w)))
    && w.wakeUps == |w.channels| - (if Finished(Last(w)) then 0 else 1)
    && w.scheduled + w.seconds == |w.commands| - (if w.caller.Direct? || w.caller.Schedule? then 1 else 0)
  }

  lemma StepKeeps(w: World, a: Action)
    requires Inv(w) && Next(w, a).Some?
    ensures Inv(Next(w, a).value)
  {
    var n := Next(w, a).value;
    forall i | 0 <= i < |n.channels| - 1 ensures Finished(n.channels[i]) {
      assert n.channels[i] == w.channels[i];
    }
  }

  lemma AllReachable(acts: seq<Action>)
    requires Exec(Next, INIT, acts).Some?
    ensures Inv(Exec(Next, INIT, acts).value)
  {
    forall w, a | Inv(w) && Next(w, a).Some? ensures Inv(Next(w, a).value) { StepKeeps(w, a); }
    RunKeeps(Next, Inv, INIT, acts);
  }

  /** In every run: no two channels are ever connecting or connected together; each attempt has
      written at most one request, and has woken the waiting command exactly once when it is
      over and not before; and those are all the wake-ups there are. The second call of a command
      takes effect at most once, and until then is still to come. */
  lemma EveryRun(acts: seq<Action>)
    requires Exec(Next, INIT, acts).Some?
    ensures var w := Exec(Next, INIT, acts).value;
            && w.channels != []
            && (forall i :: 0 <= i < |w.channels| - 1 ==> w.channels[i].status.Closed?)
            && (forall i :: 0 <= i < |w.channels| ==>
                  var c := w.channels[i];
                  |c.requests| <= 1 && c.wakes == (if c.status.Closed? then 1 else 0) && (c.ioOpen <==> !c.status.Closed?)
                  && (c.status.Connected? ==> |c.requests| == 1) && (c.status.Opened? || c.status.Connecting? ==> c.requests == []))
            && w.wakeUps == |w.channels| - (if Last(w).status.Closed? then 0 else 1)
            && w.scheduled + w.seconds == |w.commands| - (if w.caller.Direct? || w.caller.Schedule? then 1 else 0)
  {
    AllReachable(acts);
  }

  // ---------------------------------------------------------------------------
  // Commands and their connections
  // ---------------------------------------------------------------------------

  predicate Asks(c: Chan, command: string) { c.requests == [] || c.requests == [Frame(command)] }

  /** While no second call is late, command i owns channel i; a command that got no socket
      waits for ever. */
  ghost predicate Paired(w: World) {
    var n, k := |w.commands|, |w.channels|;
    && Inv(w)
    && (if n == 0 || (n == 1 && w.caller.Direct?) then w.channels == [FRESH] && w.scheduled == 0
        else k + w.failed == (if w.caller.Direct? then n - 1 else n) && !Last(w).status.Opened?)
    && (n == 0 ==> w.caller.Idle?)
    && (forall i :: 0 <= i < k && i < n ==> Asks(w.channels[i], w.commands[i]))
    && (w.caller.Idle? || w.caller.Direct? ==> w.failed == 0 && (Finished(Last(w)) || w.channels == [FRESH]))
    && (w.failed > 0 ==> w.failed == 1 && Finished(Last(w)))
    && (w.flag == 1 <==> n > 0 && !w.caller.Direct? && w.failed == 0 && Finished(Last(w)))
  }

  /** A new command, or the end of one: the connections are as they were. */
  lemma CallerKeepsPairs(w: World, a: Action)
    requires Paired(w) && (a.Begin? || a.ScheduleSecond? || a.Return?) && Next(w, a).Some?
    ensures Paired(Next(w, a).value)
  {
    var v := Next(w, a).value;
    StepKeeps(w, a);
    forall i | 0 <= i < |v.channels| && i < |v.commands| ensures Asks(v.channels[i], v.commands[i]) {
      if i < |w.commands| {
        assert Asks(w.channels[i], w.commands[i]) && v.commands[i] == w.commands[i];
      } else {
        assert v.channels == [FRESH];
      }
    }
  }

  lemma ConnectKeepsPairs(w: World, a: Action)
    requires Paired(w) && (a.ConnectDirectly? || a.SecondTakesEffect?) && Next(w, a).Some?
    ensures Next(w, a).value.late || Paired(Next(w, a).value)
  {
    var v := Next(w, a).value;
    StepKeeps(w, a);
    forall i | 0 <= i < |v.channels| && i < |v.commands| ensures v.late || Asks(v.channels[i], v.commands[i]) {
      assert i < |w.channels| ==> Asks(w.channels[i], w.commands[i]);
    }
  }

  lemma EventKeepsPairs(w: World, a: Action)
    requires Paired(w) && (a.ConnectEvent? || a.CloseEvent?) && Next(w, a).Some?
    ensures Paired(Next(w, a).value)
  {
    var v := Next(w, a).value;
    StepKeeps(w, a);
    forall i | 0 <= i < |v.channels| && i < |v.commands| ensures Asks(v.channels[i], v.commands[i]) {
      assert Asks(w.channels[i], w.commands[i]);
    }
  }

  lemma StepKeepsPairs(w: World, a: Action)
    requires (w.late || Paired(w)) && Next(w, a).Some?
    ensures Next(w, a).value.late || Paired(Next(w, a).value)
  {
    if !w.late {
      if a.ConnectDirectly? || a.SecondTakesEffect? {
        ConnectKeepsPairs(w, a);
      } else if a.ConnectEvent? || a.CloseEvent? {
        EventKeepsPairs(w, a);
      } else {
        CallerKeepsPairs(w, a);
      }
    }
  }

  /** If every second call takes effect before its channel closes, commands and connections are
      paired: each command makes one connection, which carries that command's request or none,
      and when a command has returned its connection is over and its one wake-up used. */
  lemma PromptCommands(acts: seq<Action>)
    requires Exec(Next, INIT, acts).Some? && !Exec(Next, INIT, acts).value.late
    ensures var w := Exec(Next, INIT, acts).value;
            && (forall i :: 0 <= i < |w.channels| && i < |w.commands| ==> Asks(w.channels[i], w.commands[i]))
            && (w.caller.Idle? && w.commands != [] ==>
                  |w.channels| == |w.commands| == w.wakeUps &&
                  forall i :: 0 <= i < |w.channels| ==> w.channels[i].status.Closed?)
  {
    RunsArePaired(acts);
  }

  lemma RunsArePaired(acts: seq<Action>)
    requires Exec(Next, INIT, acts).Some?
    ensures Exec(Next, INIT, acts).value.late || Paired(Exec(Next, INIT, acts).value)
  {
    var inv := (w: World) => w.late || Paired(w);
    assert Paired(INIT);
    forall w, a | inv(w) && Next(w, a).Some? ensures inv(Next(w, a).value) { StepKeepsPairs(w, a); }
    RunKeeps(Next, inv, INIT, acts);
  }

  /** More connections have been attempted, with or without a socket, than commands have called
      startConnect. */
  predicate Surplus(w: World) {
    var attempts := if w.channels != [] && Last(w).status.Opened? then |w.channels| - 1 else |w.channels|;
    var asked := if w.caller.Direct? then |w.commands| - 1 else |w.commands|;
    attempts + w.failed > asked
  }

  predicate EndsInSurplus(acts: seq<Action>) {
    Exec(Next, INIT, acts).Some? && Surplus(Exec(Next, INIT, acts).value)
  }

  lemma FirstLateCall(w: World, a: Action)
    requires Paired(w) && !w.late && Next(w, a).Some? && Next(w, a).value.late
    ensures Surplus(Next(w, a).value)
  {
    assert a.SecondTakesEffect? && NoneOpen(w.channels);
    assert a.made ==> Next(w, a).value.channels == w.channels + [FRESH.(status := Connecting)];
  }

  /** There are more connection attempts than commands asked for at some point of a run
      exactly when a second call has been late in it. */
  lemma {:induction false} SurplusIffLate(acts: seq<Action>)
    requires Exec(Next, INIT, acts).Some?
    ensures Exec(Next, INIT, acts).value.late <==> exists p :: 0 <= p <= |acts| && EndsInSurplus(acts[..p])
    decreases |acts|
  {
    var n := |acts|;
    assert acts[..n] == acts;
    LateOrNoSurplus(acts);
    if n > 0 {
      var front, a := acts[..n - 1], acts[n - 1];
      assert acts == front + [a];
      RunThenRun(Next, INIT, front, [a]);
      RunThenStep(Next, INIT, front, a);
      SurplusIffLate(front);
      forall p | 0 <= p < n ensures front[..p] == acts[..p] {}
      StillLate(front, a);
    }
  }

  lemma LateOrNoSurplus(acts: seq<Action>)
    requires Exec(Next, INIT, acts).Some?
    ensures Exec(Next, INIT, acts).value.late || !EndsInSurplus(acts)
  {
    RunsArePaired(acts);
  }

  /** What was late stays late, and what becomes late is in surplus. */
  lemma StillLate(front: seq<Action>, a: Action)
    requires Exec(Next, INIT, front).Some? && Next(Exec(Next, INIT, front).value, a).Some?
    ensures var w, n := Exec(Next, INIT, front).value, Next(Exec(Next, INIT, front).value, a).value;
            (w.late ==> n.late) && (n.late && !w.late ==> Surplus(n))
  {
    var w := Exec(Next, INIT, front).value;
    RunsArePaired(front);
    if !w.late && Next(w, a).value.late {
      FirstLateCall(w, a);
    }
  }

  lemma Go(start: World, acts: seq<Action>, w: World, a: Action) returns (more: seq<Action>, n: World)
    requires Exec(Next, start, acts) == Some(w) && Next(w, a).Some?
    ensures more == acts + [a] && Some(n) == Next(w, a) && Exec(Next, start, more) == Some(n)
  {
    more, n := acts + [a], Next(w, a).value;
    RunThenStep(Next, start, acts, a);
  }

  // ---------------------------------------------------------------------------
  // The lost request
  // ---------------------------------------------------------------------------

  /** A run from w that begins the command cmd and ends when it, and no other, has returned. */
  ghost predicate CommandRun(w: World, acts: seq<Action>, cmd: string) {
    && acts != [] && acts[0] == Begin(cmd) && Exec(Next, w, acts).Some?
    && var n := Exec(Next, w, acts).value;
       n.caller.Idle? && n.commands == w.commands + [cmd]
  }

  predicate ClosedIn(w: World, i: nat) { i < |w.channels| && w.channels[i].status.Closed? }

  /** In this run of cmd a connection has closed, and so has woken it, that carries the request
      of another command. */
  ghost predicate ForeignWake(w: World, acts: seq<Action>, cmd: string) {
    && CommandRun(w, acts, cmd)
    && var n := Exec(Next, w, acts).value;
       exists i: nat :: ClosedIn(n, i) && !ClosedIn(w, i) && !Asks(n.channels[i], cmd)
  }

  /** And no connection that was open in this run carries the request of cmd. */
  ghost predicate LostRequest(w: World, acts: seq<Action>, cmd: string) {
    && ForeignWake(w, acts, cmd)
    && var n := Exec(Next, w, acts).value;
       forall i :: 0 <= i < |n.channels| && !ClosedIn(w, i) ==> n.channels[i].requests != [Frame(cmd)]
  }

  /** What a caller can see before it begins a command: isConnected(), for another command. */
  predicate ConnectedForAnother(w: World, cmd: string)
    requires w.channels != []
  {
    IsConnected(Last(w)) && Last(w).requests != [Frame(cmd)]
  }

  /** While cmd is the last command begun since w, what was opened since then asks cmd. */
  ghost predicate OnlyOwn(w: World, cmd: string, n: World) {
    && Inv(n) && |n.commands| > |w.commands|
    && (n.commands == w.commands + [cmd] ==>
          forall i :: 0 <= i < |n.channels| && !ClosedIn(w, i) ==> Asks(n.channels[i], cmd))
  }

  lemma StepKeepsOwn(w: World, cmd: string, n: World, a: Action)
    requires OnlyOwn(w, cmd, n) && Next(n, a).Some?
    ensures OnlyOwn(w, cmd, Next(n, a).value)
  {
    var m := Next(n, a).value;
    StepKeeps(n, a);
    if m.commands == w.commands + [cmd] {
      assert !a.Begin?;
      forall i | 0 <= i < |m.channels| && !ClosedIn(w, i) ensures Asks(m.channels[i], cmd) {
        assert i < |n.channels| ==> Asks(n.channels[i], cmd);
      }
    }
  }

  lemma NoForeignWake(w: World, acts: seq<Action>, cmd: string)
    requires Inv(w) && !ConnectedForAnother(w, cmd)
    ensures !ForeignWake(w, acts, cmd)
  {
    if CommandRun(w, acts, cmd) {
      var n := Next(w, Begin(cmd)).value;
      StepKeeps(w, Begin(cmd));
      assert OnlyOwn(w, cmd, n);
      var inv := (m: World) => OnlyOwn(w, cmd, m);
      forall m, a | inv(m) && Next(m, a).Some? ensures inv(Next(m, a).value) { StepKeepsOwn(w, cmd, m, a); }
      RunKeeps(Next, inv, n, acts[1..]);
      assert OnlyOwn(w, cmd, Exec(Next, w, acts).value);
    }
  }

  lemma LoseRequest(w: World, cmd: string) returns (acts: seq<Action>)
    requires Inv(w) && w.caller.Idle? && ConnectedForAnother(w, cmd)
    ensures LostRequest(w, acts, cmd)
  {
    var n;
    acts, n := Go(w, [], w, Begin(cmd));
    acts, n := Go(w, acts, n, ConnectDirectly(true));
    assert n.channels == w.channels;
    acts, n := Go(w, acts, n, ScheduleSecond);
    acts, n := Go(w, acts, n, CloseEvent);
    acts, n := Go(w, acts, n, Return);
    var last := |w.channels| - 1;
    assert n.channels == w.channels[last := CloseDone(Last(w))];
    assert ClosedIn(n, last) && !ClosedIn(w, last) && !Asks(n.channels[last], cmd);
    assert forall i :: 0 <= i < last ==> ClosedIn(w, i) by {
      forall i | 0 <= i < last ensures ClosedIn(w, i) { assert Finished(w.channels[i]); }
    }
  }

  /** After any run, for any next command: it can be woken by the closing of another command's
      connection if and only if the client is connected, for another command, when it begins;
      and then it can return although its request was never written. */
  lemma RequestLostIffConnected(before: seq<Action>, cmd: string)
    requires Exec(Next, INIT, before).Some? && Exec(Next, INIT, before).value.caller.Idle?
    ensures var w := Exec(Next, INIT, before).value;
            && w.channels != []
            && ((exists acts :: ForeignWake(w, acts, cmd)) <==> ConnectedForAnother(w, cmd))
            && ((exists acts :: LostRequest(w, acts, cmd)) <==> ConnectedForAnother(w, cmd))
  {
    var w := Exec(Next, INIT, before).value;
    AllReachable(before);
    if ConnectedForAnother(w, cmd) {
      var acts := LoseRequest(w, cmd);
      assert ForeignWake(w, acts, cmd);
    } else {
      forall acts ensures !ForeignWake(w, acts, cmd) { NoForeignWake(w, acts, cmd); }
    }
  }

  /** A connection that fails wakes its command, too: it returns with nothing written. */
  lemma FailedConnectReturns(command: string) returns (acts: seq<Action>, w: World)
    ensures Exec(Next, INIT, acts) == Some(w) && w.caller.Idle? && w.commands == [command]
    ensures w.channels == [Chan(Closed, false, [], 1)] && !w.late
  {
    acts, w := Go(INIT, [], INIT, Begin(command));
    acts, w := Go(INIT, acts, w, ConnectDirectly(true));
    acts, w := Go(INIT, acts, w, ScheduleSecond);
    acts, w := Go(INIT, acts, w, SecondTakesEffect(true));
    acts, w := Go(INIT, acts, w, CloseEvent);
    acts, w := Go(INIT, acts, w, Return);
  }

  /** That happens, and promptness is needed: the second call of a first command, taking effect after that
      command's connection closed, opens another one; the next command finds it connected and
      is woken by its closing, so it returns although its request was never written. */
  lemma LateCallLosesRequest(first: string, second: string) returns (acts: seq<Action>, w: World)
    ensures Exec(Next, INIT, acts) == Some(w) && w.caller.Idle? && w.commands == [first, second]
    ensures forall i :: 0 <= i < |w.channels| ==> w.channels[i].requests == [Frame(first)]
  {
    acts, w := [], INIT;
    acts, w := Go(INIT, acts, w, Begin(first));
    acts, w := Go(INIT, acts, w, ConnectDirectly(true));
    assert w.channels == [FRESH.(status := Connecting)];
    acts, w := Go(INIT, acts, w, ScheduleSecond);
    acts, w := Go(INIT, acts, w, ConnectEvent);
    assert FRESH.requests + [Frame(first)] == [Frame(first)];
    assert w.channels == [Chan(Connected, true, [Frame(first)], 0)];
    acts, w := Go(INIT, acts, w, CloseEvent);
    acts, w := Go(INIT, acts, w, Return);
    var done := Chan(Closed, false, [Frame(first)], 1);
    assert w == World([done], Idle, [first], 1, 1, 0, 1, false, 0);
    acts, w := LateHalf(first, second, acts, w);
  }

  lemma LateHalf(first: string, second: string, before: seq<Action>, w0: World) returns (acts: seq<Action>, w: World)
    requires Exec(Next, INIT, before) == Some(w0)
    requires w0 == World([Chan(Closed, false, [Frame(first)], 1)], Idle, [first], 1, 1, 0, 1, false, 0)
    ensures Exec(Next, INIT, acts) == Some(w) && w.caller.Idle? && w.commands == [first, second]
    ensures forall i :: 0 <= i < |w.channels| ==> w.channels[i].requests == [Frame(first)]
  {
    var done := Chan(Closed, false, [Frame(first)], 1);
    acts, w := Go(INIT, before, w0, SecondTakesEffect(true));
    assert w.channels == [done, FRESH.(status := Connecting)];
    acts, w := Go(INIT, acts, w, ConnectEvent);
    assert FRESH.requests + [Frame(first)] == [Frame(first)];
    assert w.channels == [done, Chan(Connected, true, [Frame(first)], 0)];
    acts, w := Go(INIT, acts, w, Begin(second));
    acts, w := Go(INIT, acts, w, ConnectDirectly(true));
    acts, w := Go(INIT, acts, w, ScheduleSecond);
    acts, w := Go(INIT, acts, w, CloseEvent);
    acts, w := Go(INIT, acts, w, Return);
    assert w.channels == [done, done];
  }
}
