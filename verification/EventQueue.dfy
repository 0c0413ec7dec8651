/** The custom-event queue of include/libhv_evpp/EventLoop.h. A posting thread pushes its event
    under the lock and posts to the C loop afterwards, outside the lock; whichever post the
    loop delivers, the handler takes the front of the queue. */
module EventQueue {
  import opened Options
  import opened Runs
  import opened Sizes

  import Timers = TimerTable

  type Thread = nat

  /** A queued callback: a user's own, or the functor of a timer call made on another thread. */
  datatype Callback = User(id: nat) | OnTimers(op: Timers.Op)

  datatype World = World(
    queue: seq<Callback>,            // customEvents
    between: map<Thread, Callback>,  // threads that have pushed and not yet posted
    posted: seq<Callback>,           // posts the C loop has not delivered yet
    pushed: seq<Callback>,           // history: every push, in order
    ran: seq<Callback>,              // history: every callback run, in order
    deliveries: nat,                 // history
    tookFromEmpty: bool)             // the handler has read the front of an empty queue

  const INIT := World([], map[], [], [], [], 0, false)

  datatype Action =
    | Push(thread: Thread, cb: Callback)
    | Post(thread: Thread)
    | Deliver(post: nat)

  /** The locked section of onCustomEvent: the front, and the queue without it. */
  function TakeFront(queue: seq<Callback>): Option<(Callback, seq<Callback>)> {
    if queue == [] then None else Some((queue[0], queue[1..]))
  }

  function Next(w: World, a: Action): Option<World> {
    match a
    case Push(t, cb) =>
      if t in w.between then None
      else Some(w.(queue := w.queue + [cb], between := w.between[t := cb], pushed := w.pushed + [cb]))
    case Post(t) =>
      if t !in w.between then None
      else Some(w.(posted := w.posted + [w.between[t]], between := w.between - {t}))
    case Deliver(i) =>
      if i >= |w.posted| then None
      else
        var v := w.(posted := w.posted[..i] + w.posted[i + 1..], deliveries := w.deliveries + 1);
        match TakeFront(w.queue)
        case None => Some(v.(tookFromEmpty := true))
        case Some((cb, rest)) => Some(v.(queue := rest, ran := w.ran + [cb]))
  }

  ghost predicate Inv(w: World) {
    && |w.queue| == |w.posted| + |w.between|
    && w.pushed == w.ran + w.queue
    && |w.ran| == w.deliveries
    && !w.tookFromEmpty
  }

  lemma StepKeeps(w: World, a: Action)
    requires Inv(w) && Next(w, a).Some?
    ensures Inv(Next(w, a).value)
  {
    match a
    case Push(t, cb) =>
      OneMore(w.between, t, cb);
      assert w.pushed + [cb] == w.ran + (w.queue + [cb]);
    case Post(t) =>
      OneLess(w.between, t);
    case Deliver(i) =>
      assert w.queue != [];
      assert w.ran + w.queue == w.ran + [w.queue[0]] + w.queue[1..];
  }

  /** However pushes, posts and deliveries interleave: the handler never finds the queue empty,
      it has run as many callbacks as posts were delivered, those are the first ones pushed, in
      push order and each once, and the queue holds one callback for each undelivered post and
      each thread between its push and its post. */
  lemma EveryRun(acts: seq<Action>)
    requires Exec(Next, INIT, acts).Some?
    ensures var w := Exec(Next, INIT, acts).value;
            && !w.tookFromEmpty
            && |w.ran| == w.deliveries <= |w.pushed|
            && w.ran == w.pushed[..w.deliveries] && w.queue == w.pushed[w.deliveries..]
            && |w.queue| == |w.posted| + |w.between|
            && (w.posted != [] ==> w.queue != [])
  {
    forall w, a | Inv(w) && Next(w, a).Some? ensures Inv(Next(w, a).value) { StepKeeps(w, a); }
    RunKeeps(Next, Inv, INIT, acts);
  }

  /** When nothing is in flight, every callback ever pushed has run, in push order. */
  lemma QuietMeansAllRan(acts: seq<Action>)
    requires Exec(Next, INIT, acts).Some?
    ensures var w := Exec(Next, INIT, acts).value;
            w.posted == [] && w.between == map[] <==> w.ran == w.pushed
  {
    EveryRun(acts);
    var w := Exec(Next, INIT, acts).value;
    if w.ran == w.pushed {
      assert |w.queue| == 0;
      assert |w.between.Keys| == |w.between| == 0;
    }
  }
}
