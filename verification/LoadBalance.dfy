/** How include/libhv_evpp/EventLoopThreadPool.h picks the loop for a new connection. */
module LoadBalance {
  import opened Options
  import opened Runs
  import opened Sizes
  import opened Words

  datatype Strategy = RoundRobin | Random | LeastConnections | NotImplemented

  /** The counter after `if (++next_loop_idx_ >= n) next_loop_idx_ = 0`. */
  function Advance(counter: nat, n: nat): nat {
    var next := CountUp(counter);
    if next >= n then 0 else next
  }

  ghost predicate IsFirstMin(counts: seq<nat>, idx: nat) {
    && idx < |counts|
    && (forall j :: 0 <= j < |counts| ==> counts[idx] <= counts[j])
    && (forall j :: 0 <= j < idx ==> counts[idx] < counts[j])
  }

  /** The first loop with the fewest connections. */
  function FirstMin(counts: seq<nat>): (idx: nat)
    requires counts != []
    ensures IsFirstMin(counts, idx)
  {
    var last := |counts| - 1;
    if last == 0 then 0
    else
      var idx := FirstMin(counts[..last]);
      assert forall j :: 0 <= j < last ==> counts[..last][j] == counts[j];
      if counts[last] < counts[idx] then last else idx
  }

  class EventLoopThreadPool {
    var nextLoopIdx: nat
    /** connectionNum of each loop. */
    const connectionNum: array<nat>

    constructor (n: nat)
      ensures nextLoopIdx == 0 && fresh(connectionNum)
      ensures connectionNum.Length == n && forall i :: 0 <= i < n ==> connectionNum[i] == 0
    {
      nextLoopIdx := 0;
      connectionNum := new nat[n](_ => 0);
    }

    /** The scan for the fewest connections. */
    method LeastLoaded() returns (at: nat)
      requires connectionNum.Length > 0
      ensures at < connectionNum.Length && at == FirstMin(connectionNum[..])
    {
      at := 0;
      assert connectionNum[..1] == [connectionNum[0]];
      for i := 1 to connectionNum.Length
        invariant at == FirstMin(connectionNum[..i])
      {
        assert connectionNum[..i + 1][..i] == connectionNum[..i];
        if connectionNum[i] < connectionNum[at] {
          at := i;
        }
      }
      assert connectionNum[..connectionNum.Length] == connectionNum[..];
    }

    method AdvanceIndex(n: nat) returns (at: nat)
      requires n > 0
      modifies this`nextLoopIdx
      ensures at == nextLoopIdx == Advance(old(nextLoopIdx), n)
    {
      nextLoopIdx := (nextLoopIdx + 1) % WORD;
      if nextLoopIdx >= n {
        nextLoopIdx := 0;
      }
      at := nextLoopIdx % n;
    }

    /** nextLoop; `random` is the number hv_rand draws. */
    method NextLoop(lb: Strategy, random: nat) returns (idx: Option<nat>)
      requires random < connectionNum.Length || connectionNum.Length == 0
      modifies this`nextLoopIdx
      ensures idx.None? <==> connectionNum.Length == 0
      ensures idx.Some? ==> idx.value < connectionNum.Length
      ensures nextLoopIdx == if lb.RoundRobin? && idx.Some? then Advance(old(nextLoopIdx), connectionNum.Length)
                             else old(nextLoopIdx)
      ensures idx.Some? && lb.RoundRobin? ==> idx.value == nextLoopIdx
      ensures idx.Some? && lb.Random? ==> idx.value == random
      ensures idx.Some? && lb.LeastConnections? ==> idx.value == FirstMin(connectionNum[..])
      ensures idx.Some? && lb.NotImplemented? ==> idx.value == 0
    {
      if connectionNum.Length == 0 {
        return None;
      }
      var at := 0;
      match lb {
        case RoundRobin => at := AdvanceIndex(connectionNum.Length);
        case Random => at := random;
        case LeastConnections => at := LeastLoaded();
        case NotImplemented =>
      }
      idx := Some(at);
    }
  }

  /** c is m/n rounded down or rounded up. */
  predicate FairShare(c: nat, m: nat, n: nat)
    requires n > 0
  {
    c == m / n || c == (m + n - 1) / n
  }

  // ---------------------------------------------------------------------------
  // Round robin
  // ---------------------------------------------------------------------------

  /** m picks in a row. */
  function Picks(counter: nat, n: nat, m: nat): seq<nat>
    decreases m
  {
    if m == 0 then [] else var idx := Advance(counter, n); [idx] + Picks(idx, n, m - 1)
  }

  /** How often a loop that is `off` picks away is met in m picks. */
  function Hits(m: nat, off: nat, n: nat): nat
    requires n > 0
  {
    if m <= off then 0 else (m - off - 1) / n + 1
  }

  lemma HitsOnce(m: nat, n: nat)
    requires n > 0 && m > 0
    ensures Hits(m, 0, n) == 1 + Hits(m - 1, n - 1, n)
  {
    if m <= n {
      DivBelow(m - 1, n);
    } else {
      DivLessOne(m - 1, n);
    }
  }

  lemma DivBelow(x: nat, n: nat)
    requires x < n
    ensures x / n == 0
  {
  }

  lemma DivLessOne(x: nat, n: nat)
    requires 0 < n <= x
    ensures (x - n) / n == x / n - 1
  {
    var q, r := (x - n) / n, (x - n) % n;
    assert x == (q + 1) * n + r;
    DivUnique(x, n, q + 1, r);
  }

  lemma MulMonotone(a: nat, b: nat, n: nat)
    requires a <= b
    ensures a * n <= b * n
  {
  }

  lemma DivUnique(x: nat, n: nat, q: nat, r: nat)
    requires n > 0 && r < n && x == q * n + r
    ensures x / n == q
  {
    var q0, r0 := x / n, x % n;
    assert x == q0 * n + r0;
    if q0 < q {
      MulMonotone(q0 + 1, q, n);
    } else if q0 > q {
      MulMonotone(q + 1, q0, n);
    }
  }

  lemma DivMonotone(x: nat, y: nat, n: nat)
    requires n > 0 && x <= y
    ensures x / n <= y / n
  {
    var q, p := x / n, y / n;
    if p < q {
      MulMonotone(p + 1, q, n);
    }
  }

  /** The exact number of times loop k is picked. */
  lemma {:induction false} PickCount(counter: nat, n: nat, m: nat, k: nat)
    requires 0 < n <= WORD && k < n
    ensures multiset(Picks(counter, n, m))[k] == Hits(m, Away(Advance(counter, n), k, n), n)
    decreases m
  {
    if m > 0 {
      var p := Advance(counter, n);
      PickCount(p, n, m - 1, k);
      AdvanceIsNext(p, n);
      HitsStep(m, p, k, n);
      CountFirst(p, Picks(p, n, m - 1), k);
    }
  }

  lemma CountFirst(x: nat, s: seq<nat>, k: nat)
    ensures multiset([x] + s)[k] == (if x == k then 1 else 0) + multiset(s)[k]
  {
  }

  lemma HitsStep(m: nat, p: nat, k: nat, n: nat)
    requires m > 0 && p < n && k < n
    ensures Hits(m, Away(p, k, n), n) ==
            (if k == p then 1 else 0) + Hits(m - 1, Away(if p + 1 == n then 0 else p + 1, k, n), n)
  {
    if k == p {
      HitsOnce(m, n);
    }
  }

  /** How many picks lie between a pick of p and the next pick of k. */
  function Away(p: nat, k: nat, n: nat): nat
    requires p < n
  {
    if k >= p then k - p else k - p + n
  }

  lemma AdvanceIsNext(p: nat, n: nat)
    requires p < n <= WORD
    ensures Advance(p, n) == if p + 1 == n then 0 else p + 1
  {
  }

  /** After any number of sequential picks over a fixed pool, from any counter value, every
      loop has been picked its fair share of times. */
  lemma RoundRobinIsFair(counter: nat, n: nat, m: nat, k: nat)
    requires 0 < n <= WORD && k < n
    ensures FairShare(multiset(Picks(counter, n, m))[k], m, n)
  {
    PickCount(counter, n, m, k);
    var off := Away(Advance(counter, n), k, n);
    if m <= off {
      DivBelow(m, n);
    } else {
      var x := m - off - 1 + n;
      DivLessOne(x, n);
      assert Hits(m, off, n) == x / n;
      DivMonotone(m, x, n);
      DivMonotone(x, m + n - 1, n);
      RoundUp(m, n);
    }
  }

  lemma RoundUp(m: nat, n: nat)
    requires n > 0
    ensures (m + n - 1) / n <= m / n + 1
  {
    DivLessOne(m + n, n);
    DivMonotone(m + n - 1, m + n, n);
  }

  function After(p: nat, n: nat): nat { if p + 1 < n then p + 1 else 0 }

  /** The loop i places after p, around the pool. */
  function Along(p: nat, n: nat, i: nat): nat
    decreases i
  {
    if i == 0 then p else Along(After(p, n), n, i - 1)
  }

  lemma {:induction false} AlongValue(p: nat, n: nat, i: nat)
    requires p < n
    ensures Along(p, n, i) == (p + i) % n
    decreases i
  {
    if i == 0 {
      SmallMod(p, n);
    } else {
      AlongValue(After(p, n), n, i - 1);
      AroundThePool(p, n, i - 1);
    }
  }

  lemma AdvanceIsAfter(counter: nat, n: nat)
    requires 0 < n <= WORD && counter < WORD
    ensures Advance(counter, n) == After(counter, n) < n
  {
  }

  lemma {:induction false} PickAlong(counter: nat, n: nat, m: nat, i: nat)
    requires 0 < n <= WORD && counter < WORD && i < m
    ensures |Picks(counter, n, m)| == m && Picks(counter, n, m)[i] == Along(After(counter, n), n, i)
    decreases m
  {
    AdvanceIsAfter(counter, n);
    var p := Advance(counter, n);
    assert Picks(counter, n, m) == [p] + Picks(p, n, m - 1);
    if m > 1 {
      PickAlong(p, n, m - 1, if i == 0 then 0 else i - 1);
    }
  }

  /** And in which order: the first pick is the loop after the counter, or loop 0 when there is
      none, and every further pick is the next loop, around the pool. */
  lemma PicksInOrder(counter: nat, n: nat, m: nat, i: nat)
    requires 0 < n <= WORD && counter < WORD && i < m
    ensures |Picks(counter, n, m)| == m
    ensures Picks(counter, n, m)[i] == ((if counter + 1 < n then counter + 1 else 0) + i) % n
  {
    PickAlong(counter, n, m, i);
    AlongValue(After(counter, n), n, i);
  }

  lemma SmallMod(x: nat, n: nat)
    requires x < n
    ensures x % n == x
  {
  }

  lemma AroundThePool(p: nat, n: nat, i: nat)
    requires p < n
    ensures (After(p, n) + i) % n == (p + (i + 1)) % n
  {
    if p + 1 == n {
      assert p + (i + 1) == n + i;
      PlusOneRound(i, n);
    }
  }

  lemma PlusOneRound(i: nat, n: nat)
    requires n > 0
    ensures (n + i) % n == i % n
  {
    assert n + i == (i / n + 1) * n + i % n;
    DivUnique(n + i, n, i / n + 1, i % n);
  }

  // Calls of nextLoop from several threads: the increment, the reset and the final read are
  // separate accesses to the shared counter.

  datatype Phase = MustReset | MustRead

  datatype World = World(counter: nat, phase: map<nat, Phase>, picked: seq<nat>)

  datatype Action = Increment(thread: nat) | Reset(thread: nat) | Read(thread: nat)

  function Next(n: nat, threads: nat, w: World, a: Action): Option<World>
    requires n > 0
  {
    match a
    case Increment(t) =>
      if t >= threads || t in w.phase then None
      else
        var c := (w.counter + 1) % WORD;
        Some(w.(counter := c, phase := w.phase[t := if c >= n then MustReset else MustRead]))
    case Reset(t) =>
      if t in w.phase && w.phase[t].MustReset? then Some(w.(counter := 0, phase := w.phase[t := MustRead])) else None
    case Read(t) =>
      if t in w.phase && w.phase[t].MustRead? then
        Some(w.(phase := w.phase - {t}, picked := w.picked + [w.counter % n]))
      else None
  }

  function Resetting(w: World): set<nat> { set t | t in w.phase && w.phase[t].MustReset? }

  ghost predicate Inv(n: nat, threads: nat, w: World) {
    && w.counter < n + |Resetting(w)|
    && (forall t :: t in w.phase ==> t < threads)
    && (forall i :: 0 <= i < |w.picked| ==> w.picked[i] < n)
  }

  lemma IncrementKeeps(n: nat, threads: nat, w: World, t: nat)
    requires 0 < n && Inv(n, threads, w) && Next(n, threads, w, Increment(t)).Some?
    ensures Inv(n, threads, Next(n, threads, w, Increment(t)).value)
  {
    var v := Next(n, threads, w, Increment(t)).value;
    assert t !in Resetting(w);
    assert Resetting(v) == if v.counter >= n then Resetting(w) + {t} else Resetting(w);
    assert v.counter <= w.counter + 1;
  }

  lemma StepKeeps(n: nat, threads: nat, w: World, a: Action)
    requires 0 < n && Inv(n, threads, w) && Next(n, threads, w, a).Some?
    ensures Inv(n, threads, Next(n, threads, w, a).value)
  {
    match a
    case Increment(t) => IncrementKeeps(n, threads, w, t);
    case Reset(t) =>
    case Read(t) =>
      assert Resetting(Next(n, threads, w, a).value) == Resetting(w);
      assert w.counter % n < n;
  }

  /** However calls from any number of threads interleave, every index handed out is below n;
      the counter itself passes n by less than the number of calls that still have to reset it,
      so with no call in flight it is below n. */
  lemma ConcurrentPicks(n: nat, threads: nat, acts: seq<Action>)
    requires 0 < n
    requires Exec((w, a) => Next(n, threads, w, a), World(0, map[], []), acts).Some?
    ensures var w := Exec((w, a) => Next(n, threads, w, a), World(0, map[], []), acts).value;
            && (forall i :: 0 <= i < |w.picked| ==> w.picked[i] < n)
            && w.counter < n + threads
            && (w.phase == map[] ==> w.counter < n)
  {
    var next := (w, a) => Next(n, threads, w, a);
    var inv := (w: World) => Inv(n, threads, w);
    var init := World(0, map[], []);
    forall w, a | inv(w) && next(w, a).Some? ensures inv(next(w, a).value) { StepKeeps(n, threads, w, a); }
    RunKeeps(next, inv, init, acts);
    var w := Exec(next, init, acts).value;
    AtMost(Resetting(w), threads);
    if w.phase == map[] {
      assert Resetting(w) == {};
    }
  }

  /** A call that no other comes in between of is one sequential pick. */
  lemma CallAlone(n: nat, threads: nat, w: World, t: nat)
    requires 0 < n && t < threads && t !in w.phase
    ensures var next := (v, a) => Next(n, threads, v, a);
            var p := Advance(w.counter, n);
            Exec(next, w, if CountUp(w.counter) >= n then [Increment(t), Reset(t)] + [Read(t)] else [Increment(t), Read(t)]) ==
            Some(w.(counter := p, picked := w.picked + [p]))
  {
    var next := (v, a) => Next(n, threads, v, a);
    var p := Advance(w.counter, n);
    SmallMod(p, n);
    if CountUp(w.counter) >= n {
      RunOfTwo(next, w, Increment(t), Reset(t));
      RunThenStep(next, w, [Increment(t), Reset(t)], Read(t));
      assert w.phase[t := MustReset][t := MustRead] - {t} == w.phase;
    } else {
      RunOfTwo(next, w, Increment(t), Read(t));
      assert w.phase[t := MustRead] - {t} == w.phase;
    }
  }

  // ---------------------------------------------------------------------------
  // Least connections
  // ---------------------------------------------------------------------------

  function Sum(counts: seq<nat>): nat {
    if counts == [] then 0 else counts[0] + Sum(counts[1..])
  }

  lemma {:induction false} SumUpdate(counts: seq<nat>, i: nat, x: nat)
    requires i < |counts|
    ensures Sum(counts[i := x]) == Sum(counts) - counts[i] + x
  {
    var after := counts[i := x];
    if i == 0 {
      assert after[1..] == counts[1..];
    } else {
      assert after[1..] == counts[1..][i - 1 := x];
      SumUpdate(counts[1..], i - 1, x);
    }
  }

  lemma {:induction false} SumBounds(counts: seq<nat>, lo: nat, hi: nat, k: nat)
    requires k < |counts| && forall i :: 0 <= i < |counts| ==> lo <= counts[i] <= hi
    ensures |counts| * lo + counts[k] - lo <= Sum(counts) <= |counts| * hi + counts[k] - hi
  {
    var rest := counts[1..];
    assert |counts| * lo == |rest| * lo + lo && |counts| * hi == |rest| * hi + hi;
    if k > 0 {
      SumBounds(rest, lo, hi, k - 1);
    } else if rest != [] {
      SumBounds(rest, lo, hi, 0);
      assert lo <= rest[0] <= hi;
    }
  }

  /** An accept goes to the first loop with the fewest connections. */
  function AcceptOne(counts: seq<nat>): seq<nat>
    requires counts != []
  {
    var idx := FirstMin(counts);
    counts[idx := CountUp(counts[idx])]
  }

  /** m accepts in a row. */
  function AcceptMany(counts: seq<nat>, m: nat): seq<nat>
    requires counts != []
    decreases m
  {
    if m == 0 then counts
    else AcceptMany(AcceptOne(counts), m - 1)
  }

  const FULL: nat := WORD - 1

  /** No two counts differ by more than one, and none has outgrown its word. */
  ghost predicate Balanced(counts: seq<nat>) {
    && (forall i :: 0 <= i < |counts| ==> counts[i] <= FULL)
    && forall i, j :: 0 <= i < |counts| && 0 <= j < |counts| ==> counts[i] <= counts[j] + 1
  }

  lemma OneMoreBalanced(counts: seq<nat>, idx: nat)
    requires Balanced(counts) && IsFirstMin(counts, idx) && counts[idx] < FULL
    ensures Balanced(counts[idx := counts[idx] + 1])
  {
    var next := counts[idx := counts[idx] + 1];
    forall i, j | 0 <= i < |next| && 0 <= j < |next| ensures next[i] <= next[j] + 1 {
      assert counts[idx] <= counts[j] && counts[i] <= counts[j] + 1 && counts[i] <= counts[idx] + 1;
    }
  }

  lemma MinHasRoom(counts: seq<nat>, idx: nat)
    requires IsFirstMin(counts, idx) && Balanced(counts) && Sum(counts) < |counts| * FULL
    ensures counts[idx] < FULL
  {
    if counts[idx] == FULL {
      SumBounds(counts, FULL, FULL, 0);
    }
  }

  /** As long as there is room, every accept is one more connection. */
  lemma {:induction false} AcceptKeepsBalance(counts: seq<nat>, m: nat, room: nat)
    requires counts != [] && Balanced(counts) && room == |counts| * FULL && Sum(counts) + m <= room
    ensures var after := AcceptMany(counts, m);
            |after| == |counts| && Balanced(after) && Sum(after) == Sum(counts) + m
    decreases m
  {
    if m > 0 {
      var idx := FirstMin(counts);
      MinHasRoom(counts, idx);
      var next := counts[idx := counts[idx] + 1];
      SumUpdate(counts, idx, counts[idx] + 1);
      OneMoreBalanced(counts, idx);
      assert AcceptOne(counts) == next;
      AcceptKeepsBalance(next, m - 1, room);
    }
  }

  function Zeros(n: nat): seq<nat> { seq(n, _ => 0) }

  lemma {:induction false} SumOfZeros(n: nat)
    ensures Sum(Zeros(n)) == 0
  {
    if n > 0 {
      assert Zeros(n)[1..] == Zeros(n - 1);
      SumOfZeros(n - 1);
    }
  }

  lemma {:induction false} AcceptInTwo(counts: seq<nat>, m1: nat, m2: nat)
    requires counts != []
    ensures AcceptMany(counts, m1) != [] && AcceptMany(counts, m1 + m2) == AcceptMany(AcceptMany(counts, m1), m2)
    decreases m1
  {
    if m1 > 0 {
      AcceptInTwo(AcceptOne(counts), m1 - 1, m2);
    }
  }

  /** All counters full but the first, which holds x. */
  function FullBut(n: nat, x: nat): seq<nat> { seq(n, i => if i == 0 then x else FULL) }

  /** The m-th count after x. */
  function CountedUp(x: nat, m: nat): nat
    decreases m
  {
    if m == 0 then x else CountedUp(CountUp(x), m - 1)
  }

  lemma {:induction false} CountedUpValue(x: nat, m: nat)
    requires x <= FULL
    ensures CountedUp(x, m) == (x + m) % WORD
    decreases m
  {
    if m > 0 {
      CountedUpValue(CountUp(x), m - 1);
      CountUpThenAdd(x, m - 1);
    }
  }

  lemma CountUpThenAdd(x: nat, m: nat)
    requires x <= FULL
    ensures (CountUp(x) + m) % WORD == (x + (m + 1)) % WORD
  {
    if x == FULL {
      assert x + (m + 1) == WORD + m;
    }
  }

  /** From there the first loop gets every connection. */
  lemma {:induction false} FirstTakesAll(n: nat, x: nat, m: nat)
    requires n >= 1 && x <= FULL
    ensures AcceptMany(FullBut(n, x), m) == FullBut(n, CountedUp(x, m))
    decreases m
  {
    if m > 0 {
      FirstTakesOne(n, x);
      FirstTakesAll(n, CountUp(x), m - 1);
    }
  }

  lemma FirstTakesOne(n: nat, x: nat)
    requires n >= 1 && x <= FULL
    ensures AcceptOne(FullBut(n, x)) == FullBut(n, CountUp(x))
  {
    var counts := FullBut(n, x);
    assert counts[0] == x;
    assert FirstMin(counts) == 0;
    assert counts[0 := CountUp(x)] == FullBut(n, CountUp(x));
  }

  lemma FillUp(n: nat)
    requires n >= 1
    ensures AcceptMany(Zeros(n), n * FULL) == FullBut(n, FULL)
  {
    SumOfZeros(n);
    AcceptKeepsBalance(Zeros(n), n * FULL, n * FULL);
    var after := AcceptMany(Zeros(n), n * FULL);
    forall k | 0 <= k < n ensures after[k] == FULL { SumBounds(after, 0, FULL, k); }
  }

  /** Once every counter is full the next accept wraps the first one to 0, which makes its loop
      the least loaded for the next 2^32 accepts, and again after them. */
  lemma LeastConnectionsWraps(n: nat, m: nat)
    requires n >= 1 && m > n * FULL
    ensures AcceptMany(Zeros(n), m) == FullBut(n, (m - n * FULL - 1) % WORD)
  {
    FillUp(n);
    var more := m - n * FULL;
    AcceptInTwo(Zeros(n), n * FULL, more);
    FirstTakesAll(n, FULL, more);
    CountedUpValue(FULL, more);
    FullPlus(more - 1);
  }

  lemma FullPlus(x: nat)
    ensures (FULL + (x + 1)) % WORD == x % WORD
  {
    assert FULL + (x + 1) == WORD + x;
  }

  lemma FairWhileRoom(n: nat, m: nat, k: nat)
    requires k < n && m <= n * FULL
    ensures |AcceptMany(Zeros(n), m)| == n && FairShare(AcceptMany(Zeros(n), m)[k], m, n)
  {
    SumOfZeros(n);
    AcceptKeepsBalance(Zeros(n), m, n * FULL);
    var after := AcceptMany(Zeros(n), m);
    var c := after[k];
    SumBounds(after, if c == 0 then 0 else c - 1, c + 1, k);
    assert m < n * (c + 1);
    if c > 0 {
      assert n * (c - 1) < m;
    }
    Between(c, m, n);
  }

  /** Without room the first loop's counter has fallen behind its fair share. */
  lemma UnfairWithoutRoom(n: nat, m: nat)
    requires 0 < n <= WORD && m > n * FULL
    ensures |AcceptMany(Zeros(n), m)| == n && !FairShare(AcceptMany(Zeros(n), m)[0], m, n)
  {
    LeastConnectionsWraps(n, m);
    var more := m - n * FULL;
    var c := (more - 1) % WORD;
    var least := if c == FULL then FULL + 1 else FULL;
    assert c == FULL ==> more >= WORD;
    assert n * FULL + more >= n * least;
    DivAtLeast(m, n, least);
    DivMonotone(m, m + n - 1, n);
  }

  lemma DivAtLeast(x: nat, n: nat, q: nat)
    requires n > 0 && x >= n * q
    ensures x / n >= q
  {
    if x / n < q {
      MulMonotone(x / n + 1, q, n);
    }
  }

  /** In an accept-only run from zero, every loop's counter is its fair share of the connections
      exactly as long as the 32-bit counters have room for them. */
  lemma LeastConnectionsIsFair(n: nat, m: nat)
    requires 0 < n <= WORD
    ensures |AcceptMany(Zeros(n), m)| == n
    ensures (forall k :: 0 <= k < n ==> FairShare(AcceptMany(Zeros(n), m)[k], m, n)) <==> m <= n * FULL
  {
    if m <= n * FULL {
      FairWhileRoom(n, m, 0);
      forall k | 0 <= k < n ensures FairShare(AcceptMany(Zeros(n), m)[k], m, n) { FairWhileRoom(n, m, k); }
    } else {
      UnfairWithoutRoom(n, m);
    }
  }

  /** c is off m/n by less than one. */
  lemma Between(c: nat, m: nat, n: nat)
    requires n > 0 && m < n * (c + 1) && (c > 0 ==> n * (c - 1) < m)
    ensures FairShare(c, m, n)
  {
    if n * c <= m {
      assert n * (c + 1) == n * c + n && m == c * n + (m - n * c);
      DivUnique(m, n, c, m - n * c);
    } else {
      assert n * c == n * (c - 1) + n;
      var r := m + n - 1 - n * c;
      assert m + n - 1 == c * n + r && 0 <= r < n;
      DivUnique(m + n - 1, n, c, r);
    }
  }
}
