/** Timer ids: an EventLoop packs its thread's id over a 64-bit counter, a TimerThread counts
    for itself (include/libhv_evpp/EventLoop.h, include/libhv_evpp/TimerThread.h). Words are
    naturals below 2^64, with the bitwise operations written out. */
module TimerIds {
  import opened Options
  import opened Runs

  const WORD32: nat := 0x1_0000_0000
  const WORD64: nat := WORD32 * WORD32
  const INVALID: nat := 0xFFFF_FFFF_FFFF_FFFF

  /** ++nextTimerID */
  function NextCount(counter: nat): nat { (counter + 1) % WORD64 }

  /** The bitwise or of two naturals. */
  function Or(a: nat, b: nat): nat
    decreases a
  {
    if a == 0 then b
    else if b == 0 then a
    else (if a % 2 == 1 || b % 2 == 1 then 1 else 0) + 2 * Or(a / 2, b / 2)
  }

  /** (tid & 0xFFFFFFFF) << 32 | counter */
  function Pack(tid: nat, counter: nat): nat {
    Or(tid % WORD32 * WORD32, counter)
  }

  /** x shifted left by k bits. */
  function Shl(x: nat, k: nat): nat { if k == 0 then x else 2 * Shl(x, k - 1) }

  lemma OrDouble(a: nat, b: nat, bit: nat)
    requires bit < 2
    ensures Or(2 * a, 2 * b + bit) == 2 * Or(a, b) + bit
  {
    assert (2 * a) % 2 == 0 && (2 * b + bit) % 2 == bit && (2 * b + bit) / 2 == b;
    assert Or(a, 0) == a;
  }

  /** Above bit k the or is that of the upper parts; below it, b's own. */
  lemma {:induction false} OrAbove(x: nat, y: nat, c: nat, k: nat)
    requires c < Shl(1, k)
    ensures Or(Shl(x, k), Shl(y, k) + c) == Shl(Or(x, y), k) + c
    decreases k
  {
    if k > 0 {
      OrAbove(x, y, c / 2, k - 1);
      OrDouble(Shl(x, k - 1), Shl(y, k - 1) + c / 2, c % 2);
    }
  }

  lemma {:induction false} ShlTwice(x: nat, j: nat, k: nat)
    ensures Shl(Shl(x, j), k) == Shl(x, j + k)
    decreases k
  {
    if k > 0 {
      ShlTwice(x, j, k - 1);
    }
  }

  lemma Shl32(x: nat)
    ensures Shl(x, 32) == x * WORD32
  {
    ShlTwice(x, 16, 16);
    Shl16(x);
    Shl16(0x1_0000 * x);
  }

  lemma Shl16(x: nat)
    ensures Shl(x, 16) == 0x1_0000 * x
  {
    ShlTwice(x, 4, 4);
    ShlTwice(x, 8, 4);
    ShlTwice(x, 12, 4);
    Shl4(x);
    Shl4(16 * x);
    Shl4(256 * x);
    Shl4(4096 * x);
  }

  lemma Shl4(x: nat)
    ensures Shl(x, 4) == 16 * x
  {
    assert Shl(x, 1) == 2 * x;
    assert Shl(x, 3) == 2 * Shl(x, 2);
  }

  /** The packing for any counter: its upper half is or-ed into the thread word. */
  lemma PackValue(tid: nat, counter: nat)
    ensures Pack(tid, counter) == Or(tid % WORD32, counter / WORD32) * WORD32 + counter % WORD32
  {
    var x, y, c := tid % WORD32, counter / WORD32, counter % WORD32;
    Shl32(1);
    Shl32(x);
    Shl32(y);
    Shl32(Or(x, y));
    OrAbove(x, y, c, 32);
    assert y * WORD32 + c == counter;
  }

  lemma SameHalves(h1: nat, l1: nat, h2: nat, l2: nat)
    requires l1 < WORD32 && l2 < WORD32
    ensures h1 * WORD32 + l1 == h2 * WORD32 + l2 <==> h1 == h2 && l1 == l2
  {
  }

  lemma OrZero(x: nat)
    ensures Or(x, 0) == x && Or(0, x) == x
  {
  }

  /** For any thread words and any counters, two ids are equal exactly when the halves agree that
      the or leaves: a counter that has outgrown 32 bits runs into the thread word. */
  lemma PackCollides(t1: nat, c1: nat, t2: nat, c2: nat)
    ensures Pack(t1, c1) == Pack(t2, c2) <==>
            Or(t1 % WORD32, c1 / WORD32) == Or(t2 % WORD32, c2 / WORD32) && c1 % WORD32 == c2 % WORD32
  {
    PackValue(t1, c1);
    PackValue(t2, c2);
    SameHalves(Or(t1 % WORD32, c1 / WORD32), c1 % WORD32, Or(t2 % WORD32, c2 / WORD32), c2 % WORD32);
  }

  lemma InRange(counter: nat)
    requires counter < WORD32
    ensures counter / WORD32 == 0 && counter % WORD32 == counter
  {
  }

  /** While counters stay below 2^32, two ids are equal only for the same thread word and count. */
  lemma PackInjective(t1: nat, c1: nat, t2: nat, c2: nat)
    requires c1 < WORD32 && c2 < WORD32
    ensures Pack(t1, c1) == Pack(t2, c2) <==> t1 % WORD32 == t2 % WORD32 && c1 == c2
  {
    PackCollides(t1, c1, t2, c2);
    InRange(c1);
    InRange(c2);
    OrZero(t1 % WORD32);
    OrZero(t2 % WORD32);
  }

  lemma PackInRange(tid: nat, counter: nat)
    requires counter < WORD32
    ensures Pack(tid, counter) == tid % WORD32 * WORD32 + counter
  {
    PackValue(tid, counter);
    InRange(counter);
    OrZero(tid % WORD32);
  }

  /** The one way to hit the invalid id with such a counter. */
  lemma PackInvalid(tid: nat, counter: nat)
    requires counter < WORD32
    ensures Pack(tid, counter) == INVALID <==> tid % WORD32 == WORD32 - 1 && counter == WORD32 - 1
  {
    PackInRange(tid, counter);
    SameHalves(tid % WORD32, counter, WORD32 - 1, WORD32 - 1);
  }

  /** A loop's id is one a TimerThread may hand out itself only when the thread word is 0. */
  lemma PackVersusOwn(tid: nat, counter: nat, own: nat)
    requires counter < WORD32 && own < WORD32
    ensures Pack(tid, counter) == own <==> tid % WORD32 == 0 && counter == own
  {
    PackInRange(tid, counter);
    SameHalves(tid % WORD32, counter, 0, own);
  }

  /** So ids of different threads, or of one thread at different times, can collide. */
  lemma OutgrownCounter(counter: nat)
    requires counter < WORD32
    ensures Pack(2, WORD32 + counter) == Pack(3, counter) == Pack(3, WORD32 + counter)
  {
    assert (WORD32 + counter) / WORD32 == 1 && (WORD32 + counter) % WORD32 == counter;
    InRange(counter);
    SmallOrs();
    PackCollides(2, WORD32 + counter, 3, counter);
    PackCollides(3, WORD32 + counter, 3, counter);
  }

  lemma SmallOrs()
    ensures Or(2, 1) == 3 && Or(3, 1) == 3 && Or(3, 0) == 3
  {
    assert Or(1, 0) == 1;
  }

  // ---------------------------------------------------------------------------
  // Runs
  // ---------------------------------------------------------------------------

  /** A loop, or the TimerThread. */
  datatype Issuer = Loop(name: nat) | TimerThread

  /** An id handed out: by whom, with which thread word, at which count of the issuer. */
  datatype Issue = Issue(issuer: Issuer, word: nat, count: nat, id: nat)

  datatype World = World(
    counts: map<Issuer, nat>,  // how often each nextTimerID has been counted up
    issued: seq<Issue>)        // history: every id handed out

  const INIT := World(map[], [])

  /** `++nextTimerID` is atomic, so each id is one step. The word of a loop's id is tid(): the
      loop's own thread while it has its C loop, and after that the thread of the caller; so it
      can be any at each call, also that of another loop. */
  datatype Action = FromLoop(loop: nat, tid: nat) | FromTimerThread

  function Count(w: World, issuer: Issuer): nat {
    if issuer in w.counts then w.counts[issuer] else 0
  }

  function Next(w: World, a: Action): Option<World> {
    var issuer := if a.FromLoop? then Loop(a.loop) else TimerThread;
    var count := Count(w, issuer) + 1;
    Some(World(w.counts[issuer := count], w.issued + [Issued(issuer, if a.FromLoop? then a.tid else 0, count)]))
  }

  function Issued(issuer: Issuer, tid: nat, count: nat): Issue {
    Issue(issuer, tid % WORD32, count, if issuer.Loop? then Pack(tid, count % WORD64) else count % WORD64)
  }

  lemma IssuedValue(issuer: Issuer, tid: nat, count: nat)
    requires count < WORD32 && (issuer.TimerThread? ==> tid == 0)
    ensures Issued(issuer, tid, count).id == tid % WORD32 * WORD32 + count
  {
    SmallCount(count);
    PackInRange(tid, count);
  }

  lemma SmallCount(count: nat)
    requires count < WORD32
    ensures count % WORD64 == count
  {
  }

  /** A counter of 64 bits follows the number of calls. */
  lemma NextCountOf(calls: nat)
    ensures NextCount(calls % WORD64) == (calls + 1) % WORD64
  {
    if calls % WORD64 == WORD64 - 1 {
      assert calls + 1 == WORD64 * (calls / WORD64 + 1);
      MultipleOfWord(calls / WORD64 + 1);
    } else {
      RestOfWord(calls / WORD64, calls % WORD64 + 1);
    }
  }

  lemma MultipleOfWord(q: nat)
    ensures WORD64 * q % WORD64 == 0
  {
  }

  lemma RestOfWord(q: nat, r: nat)
    requires r < WORD64
    ensures (WORD64 * q + r) % WORD64 == r
  {
  }

  /** What a call adds to any state of the machine whose count for this issuer is `before`. */
  ghost predicate Follows(w: World, issuer: Issuer, a: Action, before: nat, after: nat, id: nat) {
    Count(w, issuer) % WORD64 == before ==>
      var n := Next(w, a).value;
      |n.issued| == |w.issued| + 1 && n.issued[|w.issued|].issuer == issuer && n.issued[|w.issued|].id == id &&
      Count(n, issuer) == Count(w, issuer) + 1 && Count(n, issuer) % WORD64 == after
  }

  predicate WellIssued(w: World, x: Issue) {
    && 1 <= x.count <= Count(w, x.issuer) && x.word < WORD32
    && (x.issuer.TimerThread? ==> x.word == 0)
    && (x.count < WORD32 ==> x.id == x.word * WORD32 + x.count)
  }

  ghost predicate Inv(w: World) {
    && (forall i :: 0 <= i < |w.issued| ==> WellIssued(w, w.issued[i]))
    && forall i, j :: 0 <= i < j < |w.issued| && w.issued[i].issuer == w.issued[j].issuer ==>
         w.issued[i].count < w.issued[j].count
  }

  lemma NewIssue(w: World, a: Action)
    ensures var n := Next(w, a).value; WellIssued(n, n.issued[|w.issued|])
  {
    var x := Next(w, a).value.issued[|w.issued|];
    if x.count < WORD32 {
      IssuedValue(x.issuer, if a.FromLoop? then a.tid else 0, x.count);
    }
  }

  lemma StepKeeps(w: World, a: Action)
    requires Inv(w)
    ensures Inv(Next(w, a).value)
  {
    var n := Next(w, a).value;
    NewIssue(w, a);
    forall i | 0 <= i < |w.issued| ensures WellIssued(n, n.issued[i]) {
      assert n.issued[i] == w.issued[i] && WellIssued(w, w.issued[i]);
    }
  }

  lemma Reachable(acts: seq<Action>)
    requires Exec(Next, INIT, acts).Some?
    ensures Inv(Exec(Next, INIT, acts).value)
  {
    forall w, a | Inv(w) && Next(w, a).Some? ensures Inv(Next(w, a).value) { StepKeeps(w, a); }
    RunKeeps(Next, Inv, INIT, acts);
  }

  /** In every run, of any loops on any threads and a TimerThread, while the counters concerned
      are below 2^32: two ids are equal exactly when thread word and count agree, which never
      happens to two ids of one issuer; the TimerThread counts as word 0. An id is the invalid
      one exactly when both halves are all ones. */
  lemma IdsOfRun(acts: seq<Action>, i: nat, j: nat)
    requires Exec(Next, INIT, acts).Some?
    requires i < j < |Exec(Next, INIT, acts).value.issued|
    requires var ids := Exec(Next, INIT, acts).value.issued; ids[i].count < WORD32 && ids[j].count < WORD32
    ensures var ids := Exec(Next, INIT, acts).value.issued;
            && (ids[i].id == ids[j].id <==> ids[i].word == ids[j].word && ids[i].count == ids[j].count)
            && (ids[i].issuer == ids[j].issuer ==> ids[i].id != ids[j].id)
            && (ids[i].id == INVALID <==> ids[i].word == WORD32 - 1 && ids[i].count == WORD32 - 1)
  {
    Reachable(acts);
    var ids := Exec(Next, INIT, acts).value.issued;
    var x, y := ids[i], ids[j];
    assert WellIssued(Exec(Next, INIT, acts).value, x) && WellIssued(Exec(Next, INIT, acts).value, y);
    SameHalves(x.word, x.count, y.word, y.count);
    SameHalves(x.word, x.count, WORD32 - 1, WORD32 - 1);
  }

  ghost predicate Counted(ids: seq<Issue>) {
    forall i :: 0 <= i < |ids| ==> ids[i].count < WORD32
  }

  ghost predicate Distinct(ids: seq<Issue>) {
    forall i, j :: 0 <= i < j < |ids| ==> ids[i].id != ids[j].id
  }

  /** Two issuers have used the same thread word at the same count. */
  predicate Clash(x: Issue, y: Issue) {
    x.issuer != y.issuer && x.word == y.word && x.count == y.count
  }

  /** All ids of such a run are different exactly when no two issuers ever met in thread word
      and count. */
  lemma IdsAreUnique(acts: seq<Action>)
    requires Exec(Next, INIT, acts).Some? && Counted(Exec(Next, INIT, acts).value.issued)
    ensures var ids := Exec(Next, INIT, acts).value.issued;
            Distinct(ids) <==> forall i, j :: 0 <= i < j < |ids| ==> !Clash(ids[i], ids[j])
  {
    var ids := Exec(Next, INIT, acts).value.issued;
    forall i, j | 0 <= i < j < |ids| ensures ids[i].id == ids[j].id <==> Clash(ids[i], ids[j]) {
      IdsOfRun(acts, i, j);
    }
  }

  /** They do meet: a loop that is gone, called from the thread of another loop, packs that
      thread's id, as the other loop does. */
  lemma GoneLoopClashes(tid: nat) returns (acts: seq<Action>)
    ensures Exec(Next, INIT, acts).Some? && Counted(Exec(Next, INIT, acts).value.issued)
    ensures !Distinct(Exec(Next, INIT, acts).value.issued)
  {
    acts := [FromLoop(0, tid), FromLoop(1, tid)];
    RunOfTwo(Next, INIT, FromLoop(0, tid), FromLoop(1, tid));
    var ids := Exec(Next, INIT, acts).value.issued;
    assert |ids| == 2 && ids[0].count == 1 && ids[1].count == 1 && ids[0].id == ids[1].id;
  }
}
